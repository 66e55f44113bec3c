/** Machine words of eight bytes, low-order byte first, as memory holds them. Shifts by a variable
    number of bytes are written out case by case, because the solver reasons about constant shifts. */
module Words {
  type byte = bv8
  type word = bv64

  function WordOf(b0: byte, b1: byte, b2: byte, b3: byte, b4: byte, b5: byte, b6: byte, b7: byte): word {
    b0 as word | (b1 as word << 8) | (b2 as word << 16) | (b3 as word << 24)
    | (b4 as word << 32) | (b5 as word << 40) | (b6 as word << 48) | (b7 as word << 56)
  }

  function Byte0(w: word): byte { (w & 0xFF) as byte }

  function Byte1(w: word): byte { ((w >> 8) & 0xFF) as byte }

  function Byte2(w: word): byte { ((w >> 16) & 0xFF) as byte }

  function Byte3(w: word): byte { ((w >> 24) & 0xFF) as byte }

  function Byte4(w: word): byte { ((w >> 32) & 0xFF) as byte }

  function Byte5(w: word): byte { ((w >> 40) & 0xFF) as byte }

  function Byte6(w: word): byte { ((w >> 48) & 0xFF) as byte }

  function Byte7(w: word): byte { ((w >> 56) & 0xFF) as byte }

  /** The k-th byte of a word in memory. */
  function ByteOf(w: word, k: nat): byte
    requires k < 8
  {
    if k == 0 then Byte0(w) else if k == 1 then Byte1(w) else if k == 2 then Byte2(w)
    else if k == 3 then Byte3(w) else if k == 4 then Byte4(w) else if k == 5 then Byte5(w)
    else if k == 6 then Byte6(w) else Byte7(w)
  }

  function Turn1(w: word): word { (w >> 8) | (w << 56) }

  function Turn2(w: word): word { (w >> 16) | (w << 48) }

  function Turn3(w: word): word { (w >> 24) | (w << 40) }

  function Turn4(w: word): word { (w >> 32) | (w << 32) }

  function Turn5(w: word): word { (w >> 40) | (w << 24) }

  function Turn6(w: word): word { (w >> 48) | (w << 16) }

  function Turn7(w: word): word { (w >> 56) | (w << 8) }

  /** The word turned right by o bytes, the bytes that fall out coming back in on the left. */
  function Turn(w: word, o: nat): word
    requires o < 8
  {
    if o == 0 then w else if o == 1 then Turn1(w) else if o == 2 then Turn2(w) else if o == 3 then Turn3(w)
    else if o == 4 then Turn4(w) else if o == 5 then Turn5(w) else if o == 6 then Turn6(w) else Turn7(w)
  }

  lemma BytesOfWord(b0: byte, b1: byte, b2: byte, b3: byte, b4: byte, b5: byte, b6: byte, b7: byte)
    ensures var w := WordOf(b0, b1, b2, b3, b4, b5, b6, b7);
            && Byte0(w) == b0 && Byte1(w) == b1 && Byte2(w) == b2 && Byte3(w) == b3
            && Byte4(w) == b4 && Byte5(w) == b5 && Byte6(w) == b6 && Byte7(w) == b7
  {
  }

  lemma WordOfBytes(w: word)
    ensures WordOf(Byte0(w), Byte1(w), Byte2(w), Byte3(w), Byte4(w), Byte5(w), Byte6(w), Byte7(w)) == w
  {
  }

  function Xor(a: byte, b: byte): byte {
    a ^ b
  }

  function XorWords(w: word, v: word): word {
    w ^ v
  }

  /** The bits in which two bytes differ. */
  lemma XorIsDifference(a: byte, b: byte)
    ensures Xor(a, b) == (a | b) & !(a & b)
  {
  }

  lemma XorWordsIsDifference(w: word, v: word)
    ensures XorWords(w, v) == (w | v) & !(w & v)
  {
  }

  /** The low-order byte of a word comes first. */
  lemma LowByteFirst()
    ensures WordOf(0x01, 0x23, 0x45, 0x67, 0x89, 0xAB, 0xCD, 0xEF) == 0xEFCD_AB89_6745_2301
  {
  }

  lemma XorOfByte0(w: word, v: word)
    ensures Byte0(XorWords(w, v)) == Xor(Byte0(w), Byte0(v))
  {
  }

  lemma XorOfByte1(w: word, v: word)
    ensures Byte1(XorWords(w, v)) == Xor(Byte1(w), Byte1(v))
  {
  }

  lemma XorOfByte2(w: word, v: word)
    ensures Byte2(XorWords(w, v)) == Xor(Byte2(w), Byte2(v))
  {
  }

  lemma XorOfByte3(w: word, v: word)
    ensures Byte3(XorWords(w, v)) == Xor(Byte3(w), Byte3(v))
  {
  }

  lemma XorOfByte4(w: word, v: word)
    ensures Byte4(XorWords(w, v)) == Xor(Byte4(w), Byte4(v))
  {
  }

  lemma XorOfByte5(w: word, v: word)
    ensures Byte5(XorWords(w, v)) == Xor(Byte5(w), Byte5(v))
  {
  }

  lemma XorOfByte6(w: word, v: word)
    ensures Byte6(XorWords(w, v)) == Xor(Byte6(w), Byte6(v))
  {
  }

  lemma XorOfByte7(w: word, v: word)
    ensures Byte7(XorWords(w, v)) == Xor(Byte7(w), Byte7(v))
  {
  }

  lemma ByteOfIs(w: word)
    ensures ByteOf(w, 0) == Byte0(w)
    ensures ByteOf(w, 1) == Byte1(w)
    ensures ByteOf(w, 2) == Byte2(w)
    ensures ByteOf(w, 3) == Byte3(w)
    ensures ByteOf(w, 4) == Byte4(w)
    ensures ByteOf(w, 5) == Byte5(w)
    ensures ByteOf(w, 6) == Byte6(w)
    ensures ByteOf(w, 7) == Byte7(w)
  {
    hide Byte0, Byte1, Byte2, Byte3, Byte4, Byte5, Byte6, Byte7;
  }

  lemma ByteOfXor(w: word, v: word, k: nat)
    requires k < 8
    ensures ByteOf(XorWords(w, v), k) == Xor(ByteOf(w, k), ByteOf(v, k))
  {
    hide *;
    XorOfByte0(w, v);
    XorOfByte1(w, v);
    XorOfByte2(w, v);
    XorOfByte3(w, v);
    XorOfByte4(w, v);
    XorOfByte5(w, v);
    XorOfByte6(w, v);
    XorOfByte7(w, v);
    ByteOfIs(w);
    ByteOfIs(v);
    ByteOfIs(XorWords(w, v));
    Eight(k);
  }

  /** The cases of a byte number. */
  lemma Eight(k: nat)
    requires k < 8
    ensures k == 0 || k == 1 || k == 2 || k == 3 || k == 4 || k == 5 || k == 6 || k == 7
  {
  }

  lemma BytesOfTurn1(w: word)
    ensures var t := Turn1(w);
            && Byte0(t) == Byte1(w) && Byte1(t) == Byte2(w) && Byte2(t) == Byte3(w) && Byte3(t) == Byte4(w)
            && Byte4(t) == Byte5(w) && Byte5(t) == Byte6(w) && Byte6(t) == Byte7(w) && Byte7(t) == Byte0(w)
  {
  }

  lemma TurnAt1(w: word, k: nat)
    requires k < 8
    ensures ByteOf(Turn1(w), k) == ByteOf(w, (k + 1) % 8)
  {
    hide *;
    BytesOfTurn1(w);
    ByteOfIs(w);
    ByteOfIs(Turn1(w));
    Eight(k);
  }

  lemma BytesOfTurn2(w: word)
    ensures var t := Turn2(w);
            && Byte0(t) == Byte2(w) && Byte1(t) == Byte3(w) && Byte2(t) == Byte4(w) && Byte3(t) == Byte5(w)
            && Byte4(t) == Byte6(w) && Byte5(t) == Byte7(w) && Byte6(t) == Byte0(w) && Byte7(t) == Byte1(w)
  {
  }

  lemma TurnAt2(w: word, k: nat)
    requires k < 8
    ensures ByteOf(Turn2(w), k) == ByteOf(w, (k + 2) % 8)
  {
    hide *;
    BytesOfTurn2(w);
    ByteOfIs(w);
    ByteOfIs(Turn2(w));
    Eight(k);
  }

  lemma BytesOfTurn3(w: word)
    ensures var t := Turn3(w);
            && Byte0(t) == Byte3(w) && Byte1(t) == Byte4(w) && Byte2(t) == Byte5(w) && Byte3(t) == Byte6(w)
            && Byte4(t) == Byte7(w) && Byte5(t) == Byte0(w) && Byte6(t) == Byte1(w) && Byte7(t) == Byte2(w)
  {
  }

  lemma TurnAt3(w: word, k: nat)
    requires k < 8
    ensures ByteOf(Turn3(w), k) == ByteOf(w, (k + 3) % 8)
  {
    hide *;
    BytesOfTurn3(w);
    ByteOfIs(w);
    ByteOfIs(Turn3(w));
    Eight(k);
  }

  lemma BytesOfTurn4(w: word)
    ensures var t := Turn4(w);
            && Byte0(t) == Byte4(w) && Byte1(t) == Byte5(w) && Byte2(t) == Byte6(w) && Byte3(t) == Byte7(w)
            && Byte4(t) == Byte0(w) && Byte5(t) == Byte1(w) && Byte6(t) == Byte2(w) && Byte7(t) == Byte3(w)
  {
  }

  lemma TurnAt4(w: word, k: nat)
    requires k < 8
    ensures ByteOf(Turn4(w), k) == ByteOf(w, (k + 4) % 8)
  {
    hide *;
    BytesOfTurn4(w);
    ByteOfIs(w);
    ByteOfIs(Turn4(w));
    Eight(k);
  }

  lemma BytesOfTurn5(w: word)
    ensures var t := Turn5(w);
            && Byte0(t) == Byte5(w) && Byte1(t) == Byte6(w) && Byte2(t) == Byte7(w) && Byte3(t) == Byte0(w)
            && Byte4(t) == Byte1(w) && Byte5(t) == Byte2(w) && Byte6(t) == Byte3(w) && Byte7(t) == Byte4(w)
  {
  }

  lemma TurnAt5(w: word, k: nat)
    requires k < 8
    ensures ByteOf(Turn5(w), k) == ByteOf(w, (k + 5) % 8)
  {
    hide *;
    BytesOfTurn5(w);
    ByteOfIs(w);
    ByteOfIs(Turn5(w));
    Eight(k);
  }

  lemma BytesOfTurn6(w: word)
    ensures var t := Turn6(w);
            && Byte0(t) == Byte6(w) && Byte1(t) == Byte7(w) && Byte2(t) == Byte0(w) && Byte3(t) == Byte1(w)
            && Byte4(t) == Byte2(w) && Byte5(t) == Byte3(w) && Byte6(t) == Byte4(w) && Byte7(t) == Byte5(w)
  {
  }

  lemma TurnAt6(w: word, k: nat)
    requires k < 8
    ensures ByteOf(Turn6(w), k) == ByteOf(w, (k + 6) % 8)
  {
    hide *;
    BytesOfTurn6(w);
    ByteOfIs(w);
    ByteOfIs(Turn6(w));
    Eight(k);
  }

  lemma BytesOfTurn7(w: word)
    ensures var t := Turn7(w);
            && Byte0(t) == Byte7(w) && Byte1(t) == Byte0(w) && Byte2(t) == Byte1(w) && Byte3(t) == Byte2(w)
            && Byte4(t) == Byte3(w) && Byte5(t) == Byte4(w) && Byte6(t) == Byte5(w) && Byte7(t) == Byte6(w)
  {
  }

  lemma TurnAt7(w: word, k: nat)
    requires k < 8
    ensures ByteOf(Turn7(w), k) == ByteOf(w, (k + 7) % 8)
  {
    hide *;
    BytesOfTurn7(w);
    ByteOfIs(w);
    ByteOfIs(Turn7(w));
    Eight(k);
  }

  lemma ByteOfTurn(w: word, o: nat, k: nat)
    requires o < 8 && k < 8
    ensures ByteOf(Turn(w, o), k) == ByteOf(w, (k + o) % 8)
  {
    hide ByteOf, Turn1, Turn2, Turn3, Turn4, Turn5, Turn6, Turn7;
    if o == 0 {
    } else if o == 1 {
      TurnAt1(w, k);
    } else if o == 2 {
      TurnAt2(w, k);
    } else if o == 3 {
      TurnAt3(w, k);
    } else if o == 4 {
      TurnAt4(w, k);
    } else if o == 5 {
      TurnAt5(w, k);
    } else if o == 6 {
      TurnAt6(w, k);
    } else {
      TurnAt7(w, k);
    }
  }
}
