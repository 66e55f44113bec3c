/** WebSocket payload masking: byte by byte, word by word, and in pieces with a turning key. */
module Masking {
  import opened Sequences
  import opened Words

  type Key = k: seq<byte> | |k| == 4 witness [0, 0, 0, 0]

  /** Section 5.3 of RFC 6455: octet i of the data is combined with octet i modulo 4 of the key; the
      data may begin some octets into the payload. */
  function Masked(data: seq<byte>, key: Key, offset: nat): (r: seq<byte>)
    ensures |r| == |data|
  {
    seq(|data|, i requires 0 <= i < |data| => Xor(data[i], key[(i + offset) % 4]))
  }

  lemma XorTwice(a: byte, b: byte)
    ensures Xor(Xor(a, b), b) == a
  {
  }

  /** Masking with the same key twice restores the data. */
  lemma MaskingTwice(data: seq<byte>, key: Key, offset: nat)
    ensures Masked(Masked(data, key, offset), key, offset) == data
  {
    hide Xor;
    forall i | 0 <= i < |data| ensures Masked(Masked(data, key, offset), key, offset)[i] == data[i] {
      XorTwice(data[i], key[(i + offset) % 4]);
    }
  }

  lemma XorWithZero(a: byte)
    ensures Xor(a, 0) == a && Xor(0, a) == a
  {
  }

  /** A key of zeros masks nothing. */
  lemma MaskedByZeros(data: seq<byte>, offset: nat)
    ensures Masked(data, [0, 0, 0, 0], offset) == data
  {
    hide Xor;
    forall i | 0 <= i < |data| ensures Masked(data, [0, 0, 0, 0], offset)[i] == data[i] {
      XorWithZero(data[i]);
    }
  }

  /** Zeros masked are the key, over and over, from the offset on. */
  lemma ZerosMasked(n: nat, key: Key, offset: nat)
    ensures Masked(seq(n, _ => 0), key, offset) == seq(n, i requires 0 <= i < n => key[(i + offset) % 4])
  {
    hide Xor;
    var zeros := seq(n, _ => 0 as byte);
    forall i | 0 <= i < n ensures Masked(zeros, key, offset)[i] == key[(i + offset) % 4] {
      XorWithZero(key[(i + offset) % 4]);
    }
  }

  /** Each masked octet has the bits in which the octet and its octet of the key differ. */
  lemma MaskedBits(data: seq<byte>, key: Key, offset: nat, i: nat)
    requires i < |data|
    ensures var k := key[(i + offset) % 4]; Masked(data, key, offset)[i] == (data[i] | k) & !(data[i] & k)
  {
    XorIsDifference(data[i], key[(i + offset) % 4]);
    hide Xor;
  }

  lemma MaskedAppend(a: seq<byte>, b: seq<byte>, key: Key, offset: nat)
    ensures Masked(a + b, key, offset) == Masked(a, key, offset) + Masked(b, key, offset + |a|)
  {
    hide Xor;
  }

  // ----- prepared keys -----

  /** A word whose bytes are the key, over and over, from some octet on. */
  ghost predicate Prepared(w: word, key: Key, offset: nat) {
    forall k | 0 <= k < 8 :: ByteOf(w, k) == key[(k + offset) % 4]
  }

  /** The key as a number in both halves of a word. */
  function PrepareMaskingKey(key: Key): word {
    var n := key[0] as word | (key[1] as word << 8) | (key[2] as word << 16) | (key[3] as word << 24);
    (n << 32) | n
  }

  lemma PrepareIsWord(k0: byte, k1: byte, k2: byte, k3: byte)
    ensures PrepareMaskingKey([k0, k1, k2, k3]) == WordOf(k0, k1, k2, k3, k0, k1, k2, k3)
  {
  }

  lemma PreparedAtStart(key: Key)
    ensures Prepared(PrepareMaskingKey(key), key, 0)
  {
    hide PrepareMaskingKey, WordOf, ByteOf;
    var w := PrepareMaskingKey(key);
    assert key == [key[0], key[1], key[2], key[3]];
    PrepareIsWord(key[0], key[1], key[2], key[3]);
    BytesOfWord(key[0], key[1], key[2], key[3], key[0], key[1], key[2], key[3]);
    ByteOfIs(w);
    forall k | 0 <= k < 8 ensures ByteOf(w, k) == key[k % 4] {
      Eight(k);
    }
  }

  /** The code's circular shift by some bytes. */
  function CircshiftPreparedKey(w: word, offset: nat): word
    requires offset < 8
  {
    Turn(w, offset)
  }

  lemma SameMod4(a: nat, b: nat, q: int)
    requires a == b + 4 * q
    ensures a % 4 == b % 4
  {
  }

  /** Shifting keeps the key in step with the data it has masked. */
  lemma ShiftAdvances(w: word, key: Key, offset: nat, length: nat, shift: nat)
    requires Prepared(w, key, offset) && shift < 8 && shift % 4 == length % 4
    ensures Prepared(CircshiftPreparedKey(w, shift), key, offset + length)
  {
    hide ByteOf, Turn;
    forall k | 0 <= k < 8 ensures ByteOf(Turn(w, shift), k) == key[(k + offset + length) % 4] {
      ByteOfTurn(w, shift, k);
      TurnedIndex(k, shift, offset, length);
    }
  }

  lemma TurnedIndex(k: nat, shift: nat, offset: nat, length: nat)
    requires shift % 4 == length % 4
    ensures ((k + shift) % 8 + offset) % 4 == (k + offset + length) % 4
  {
    var m := (k + shift) % 8;
    SameMod4(m + offset, k + offset + length, shift / 4 - 2 * ((k + shift) / 8) - length / 4);
  }

  // ----- the masking functions -----

  // Pointers into buffers are a buffer and a position. Input and output are the same stretch or
  // different buffers.

  ghost predicate SameOrApart(input: array<byte>, inAt: nat, output: array<byte>, outAt: nat) {
    input != output || inAt == outAt
  }

  /** The output buffer with the masked input stretch in its place and nothing else changed. */
  ghost function Overwritten(output: seq<byte>, outAt: nat, stretch: seq<byte>): seq<byte>
    requires outAt + |stretch| <= |output|
  {
    output[..outAt] + stretch + output[outAt + |stretch|..]
  }

  lemma OverwrittenNext(before: seq<byte>, outAt: nat, stretch: seq<byte>, more: seq<byte>)
    requires outAt + |stretch| + |more| <= |before|
    ensures var o := Overwritten(before, outAt, stretch);
            var at := outAt + |stretch|;
            Overwritten(before, outAt, stretch + more) == o[..at] + more + o[at + |more|..]
  {
  }

  lemma OverwrittenRest(before: seq<byte>, outAt: nat, stretch: seq<byte>)
    requires outAt + |stretch| <= |before|
    ensures |Overwritten(before, outAt, stretch)| == |before|
    ensures Overwritten(before, outAt, stretch)[outAt + |stretch|..] == before[outAt + |stretch|..]
  {
  }

  /** One step of a masking loop: more bytes go behind those already written, and what the loop has
      yet to read stays. */
  method Advance(ghost input: array<byte>, ghost inAt: nat, output: array<byte>, outAt: nat, i: nat, more: seq<byte>,
                 ghost read: seq<byte>, ghost before: seq<byte>, ghost done: seq<byte>)
    requires i == |done| && SameOrApart(input, inAt, output, outAt)
    requires inAt + |done| + |more| <= input.Length && outAt + |done| + |more| <= |before| == output.Length
    requires |read| == input.Length && input[inAt + |done|..] == read[inAt + |done|..]
    requires input == output ==> read == before
    requires output[..] == Overwritten(before, outAt, done)
    modifies output
    ensures output[..] == Overwritten(before, outAt, done + more)
    ensures input[inAt + |done + more|..] == read[inAt + |done + more|..]
  {
    hide Overwritten;
    OverwrittenNext(before, outAt, done, more);
    OverwrittenRest(before, outAt, done);
    OverwrittenRest(before, outAt, done + more);
    Write(output, outAt + i, more);
    assert input != output ==> input[inAt + |done + more|..] == old(input[inAt + |done|..])[|more|..];
  }

  method ByteMask(input: array<byte>, inAt: nat, output: array<byte>, outAt: nat, length: nat, key: Key, keyOffset: nat)
    requires inAt + length <= input.Length && outAt + length <= output.Length
    requires SameOrApart(input, inAt, output, outAt)
    modifies output
    ensures output[..] == Overwritten(old(output[..]), outAt, Masked(old(input[inAt..inAt + length]), key, keyOffset))
  {
    hide Xor, Masked, Overwritten;
    ghost var read, before := input[..], output[..];
    ghost var src := input[inAt..inAt + length];
    MaskedNothing(key, keyOffset);
    OverwrittenNothing(before, outAt);
    var keyIndex := keyOffset % 4;
    for i := 0 to length
      invariant keyIndex == (i + keyOffset) % 4
      invariant input[inAt + i..] == read[inAt + i..]
      invariant output[..] == Overwritten(before, outAt, Masked(src[..i], key, keyOffset))
    {
      assert input[inAt + i] == input[inAt + i..][0] == src[i];
      MaskedNext(src, i, key, keyOffset);
      Advance(input, inAt, output, outAt, i, [Xor(input[inAt + i], key[keyIndex])],
              read, before, Masked(src[..i], key, keyOffset));
      NextKeyIndex(i, keyOffset);
      keyIndex := keyIndex + 1;
      keyIndex := keyIndex % 4;
    }
    assert src[..length] == src;
  }

  lemma NextKeyIndex(i: nat, offset: nat)
    ensures ((i + offset) % 4 + 1) % 4 == (i + 1 + offset) % 4
  {
  }

  lemma OverwrittenNothing(before: seq<byte>, outAt: nat)
    requires outAt <= |before|
    ensures Overwritten(before, outAt, []) == before
  {
  }

  lemma MaskedNothing(key: Key, offset: nat)
    ensures Masked([], key, offset) == []
  {
  }

  lemma MaskedNext(src: seq<byte>, i: nat, key: Key, offset: nat)
    requires i < |src|
    ensures Masked(src[..i + 1], key, offset) == Masked(src[..i], key, offset) + [Xor(src[i], key[(i + offset) % 4])]
  {
    hide Xor;
  }

  /** The bytes of a word. */
  function WordBytes(w: word): (b: seq<byte>)
    ensures |b| == 8
  {
    seq(8, k requires 0 <= k < 8 => ByteOf(w, k))
  }

  /** Data combined with the bytes of a word, over and over. */
  function MaskedByWord(data: seq<byte>, w: word): (r: seq<byte>)
    ensures |r| == |data|
  {
    seq(|data|, i requires 0 <= i < |data| => Xor(data[i], ByteOf(w, i % 8)))
  }

  /** A prepared word masks as the key does. */
  lemma PreparedMasks(data: seq<byte>, w: word, key: Key, offset: nat)
    requires Prepared(w, key, offset)
    ensures MaskedByWord(data, w) == Masked(data, key, offset)
  {
    hide Xor, ByteOf;
    forall i | 0 <= i < |data| ensures MaskedByWord(data, w)[i] == Masked(data, key, offset)[i] {
      SameMod4(i + offset, i % 8 + offset, 2 * (i / 8));
    }
  }

  lemma MaskedByteOfWord(data: seq<byte>, i: nat, key: word, w: word, k: nat)
    requires 8 * i + 8 <= |data| && WordBytes(w) == data[8 * i..8 * i + 8] && k < 8
    ensures MaskedByWord(data[..8 * i + 8], key)[8 * i + k] == WordBytes(XorWords(w, key))[k]
  {
    hide Xor, XorWords, ByteOf;
    ByteOfXor(w, key, k);
    assert WordBytes(w)[k] == data[8 * i..8 * i + 8][k];
    assert (8 * i + k) % 8 == k;
  }

  lemma MaskedNextWord(data: seq<byte>, i: nat, key: word, w: word)
    requires 8 * i + 8 <= |data| && WordBytes(w) == data[8 * i..8 * i + 8]
    ensures MaskedByWord(data[..8 * i + 8], key) == MaskedByWord(data[..8 * i], key) + WordBytes(XorWords(w, key))
  {
    hide Xor, XorWords, ByteOf, WordBytes;
    var all, more := MaskedByWord(data[..8 * i + 8], key), WordBytes(XorWords(w, key));
    forall k | 0 <= k < 8 ensures all[8 * i + k] == more[k] {
      MaskedByteOfWord(data, i, key, w, k);
    }
    assert all[..8 * i] == MaskedByWord(data[..8 * i], key);
    assert all[8 * i..] == more;
  }

  /** A word read from memory. */
  method LoadWord(buffer: array<byte>, at: nat) returns (w: word)
    requires at + 8 <= buffer.Length
    ensures WordBytes(w) == buffer[at..at + 8]
  {
    hide ByteOf, WordOf;
    w := WordOf(buffer[at], buffer[at + 1], buffer[at + 2], buffer[at + 3],
                buffer[at + 4], buffer[at + 5], buffer[at + 6], buffer[at + 7]);
    BytesOfWord(buffer[at], buffer[at + 1], buffer[at + 2], buffer[at + 3],
                buffer[at + 4], buffer[at + 5], buffer[at + 6], buffer[at + 7]);
    ByteOfIs(w);
    forall k | 0 <= k < 8 ensures ByteOf(w, k) == buffer[at + k] {
      Eight(k);
    }
  }

  lemma WordOfStretch(read: seq<byte>, inAt: nat, n: nat, i: nat)
    requires i < n && inAt + 8 * n <= |read|
    ensures read[inAt + 8 * i..][..8] == read[inAt..inAt + 8 * n][8 * i..8 * i + 8]
  {
    SliceOfSlice(read, inAt, inAt + 8 * n, 8 * i, 8 * i + 8);
    SliceOfSlice(read, inAt + 8 * i, |read|, 0, 8);
  }

  /** The loop over whole words. */
  method MaskWords(input: array<byte>, inAt: nat, output: array<byte>, outAt: nat, n: nat, preparedKey: word)
    requires inAt + 8 * n <= input.Length && outAt + 8 * n <= output.Length
    requires SameOrApart(input, inAt, output, outAt)
    modifies output
    ensures output[..] == Overwritten(old(output[..]), outAt, MaskedByWord(old(input[inAt..inAt + 8 * n]), preparedKey))
  {
    hide XorWords, WordBytes, MaskedByWord, Overwritten;
    ghost var read, before := input[..], output[..];
    ghost var src := input[inAt..inAt + 8 * n];
    OverwrittenNothing(before, outAt);
    assert MaskedByWord(src[..0], preparedKey) == [];
    for i := 0 to n
      invariant input[inAt + 8 * i..] == read[inAt + 8 * i..]
      invariant output[..] == Overwritten(before, outAt, MaskedByWord(src[..8 * i], preparedKey))
    {
      var w := LoadWord(input, inAt + 8 * i);
      assert input[inAt + 8 * i..inAt + 8 * i + 8] == input[inAt + 8 * i..][..8];
      WordOfStretch(read, inAt, n, i);
      var x := XorWords(w, preparedKey);
      MaskedNextWord(src, i, preparedKey, w);
      Advance(input, inAt, output, outAt, 8 * i, WordBytes(x), read, before, MaskedByWord(src[..8 * i], preparedKey));
    }
    assert src[..8 * n] == src;
  }

  /** The loop over the bytes of a partial word at the end. */
  method MaskPartialWord(input: array<byte>, inAt: nat, output: array<byte>, outAt: nat, length: nat, preparedKey: word)
    requires inAt + length <= input.Length && outAt + length <= output.Length && length < 8
    requires SameOrApart(input, inAt, output, outAt)
    modifies output
    ensures output[..]
            == Overwritten(old(output[..]), outAt, MaskedByWord(old(input[inAt..inAt + length]), preparedKey))
  {
    hide Xor, MaskedByWord, Overwritten, ByteOf;
    ghost var read, before := input[..], output[..];
    ghost var src := input[inAt..inAt + length];
    OverwrittenNothing(before, outAt);
    MaskedByNothing(preparedKey);
    for i := 0 to length
      invariant input[inAt + i..] == read[inAt + i..]
      invariant output[..] == Overwritten(before, outAt, MaskedByWord(src[..i], preparedKey))
    {
      assert input[inAt + i] == input[inAt + i..][0] == src[i];
      MaskedNextByte(src, i, preparedKey);
      Advance(input, inAt, output, outAt, i, [Xor(input[inAt + i], ByteOf(preparedKey, i))],
              read, before, MaskedByWord(src[..i], preparedKey));
    }
    assert src[..length] == src;
  }

  lemma MaskedByNothing(w: word)
    ensures MaskedByWord([], w) == []
  {
  }

  lemma MaskedNextByte(src: seq<byte>, i: nat, w: word)
    requires i < |src| && i < 8
    ensures MaskedByWord(src[..i + 1], w) == MaskedByWord(src[..i], w) + [Xor(src[i], ByteOf(w, i))]
  {
    hide Xor, ByteOf;
  }

  /** Masking one stretch and then the next is masking both. */
  lemma TwoStretches(before: seq<byte>, outAt: nat, src: seq<byte>, m: nat, key: Key, offset: nat)
    requires m <= |src| && outAt + |src| <= |before|
    ensures var first := Overwritten(before, outAt, Masked(src[..m], key, offset));
            && |first| == |before|
            && Overwritten(first, outAt + m, Masked(src[m..], key, offset + m))
               == Overwritten(before, outAt, Masked(src, key, offset))
  {
    hide Masked;
    MaskedAppend(src[..m], src[m..], key, offset);
    assert src[..m] + src[m..] == src;
  }

  /** Masks a whole payload: words first, then the remaining bytes. */
  method WordMaskExact(input: array<byte>, inAt: nat, output: array<byte>, outAt: nat, length: nat, key: Key)
    requires inAt + length <= input.Length && outAt + length <= output.Length
    requires SameOrApart(input, inAt, output, outAt)
    modifies output
    ensures output[..] == Overwritten(old(output[..]), outAt, Masked(old(input[inAt..inAt + length]), key, 0))
  {
    hide Masked, Overwritten, Prepared, PrepareMaskingKey;
    ghost var src, before := input[inAt..inAt + length], output[..];
    var preparedKey := PrepareMaskingKey(key);
    PreparedAtStart(key);
    var n := length / 8;
    PreparedMasks(src[..8 * n], preparedKey, key, 0);
    FrontAndRest(input[..], inAt, inAt + length, 8 * n);
    ghost var read := input[..];
    MaskWords(input, inAt, output, outAt, n, preparedKey);
    RestStays(before, outAt, Masked(src[..8 * n], key, 0));
    SameRest(input[..], read, inAt + 8 * n, length - 8 * n);
    ByteMask(input, inAt + 8 * n, output, outAt + 8 * n, length - 8 * n, key, 8 * n);
    TwoStretches(before, outAt, src, 8 * n, key, 0);
  }

  /** What lies behind a stretch stays when it is overwritten. */
  lemma RestStays(before: seq<byte>, outAt: nat, stretch: seq<byte>)
    requires outAt + |stretch| <= |before|
    ensures var o := Overwritten(before, outAt, stretch);
            |o| == |before| && o[outAt + |stretch|..] == before[outAt + |stretch|..]
  {
  }

  /** Masks a piece of a payload with a key that has been turned to the piece's place, and returns the
      key turned to the place behind it. */
  method WordMaskCirc(input: array<byte>, inAt: nat, output: array<byte>, outAt: nat, length: nat, preparedKey: word,
                      ghost key: Key, ghost offset: nat)
    returns (next: word)
    requires inAt + length <= input.Length && outAt + length <= output.Length
    requires SameOrApart(input, inAt, output, outAt) && Prepared(preparedKey, key, offset)
    modifies output
    ensures output[..] == Overwritten(old(output[..]), outAt, Masked(old(input[inAt..inAt + length]), key, offset))
    ensures Prepared(next, key, offset + length)
  {
    hide Masked, Overwritten, Prepared, Turn;
    ghost var src, before := input[inAt..inAt + length], output[..];
    var n, l := WordsAndRest(length);
    PreparedMasks(src[..8 * n], preparedKey, key, offset);
    FrontAndRest(input[..], inAt, inAt + length, 8 * n);
    ghost var read := input[..];
    MaskWords(input, inAt, output, outAt, n, preparedKey);
    RestStays(before, outAt, Masked(src[..8 * n], key, offset));
    SameRest(input[..], read, inAt + 8 * n, length - 8 * n);
    ShiftAfterWords(preparedKey, key, offset, n, 0);
    PreparedMasks(src[8 * n..], preparedKey, key, offset + 8 * n);
    MaskPartialWord(input, inAt + 8 * n, output, outAt + 8 * n, l, preparedKey);
    TwoStretches(before, outAt, src, 8 * n, key, offset);
    ShiftAfterWords(preparedKey, key, offset, n, l);
    next := CircshiftPreparedKey(preparedKey, l);
  }

  /** The number of whole words and the number of bytes left. */
  method WordsAndRest(length: nat) returns (n: nat, l: nat)
    ensures length == 8 * n + l && l < 8
  {
    n := length / 8;
    l := length - n * 8;
  }

  lemma ShiftAfterWords(w: word, key: Key, offset: nat, n: nat, l: nat)
    requires Prepared(w, key, offset) && l < 8
    ensures Prepared(CircshiftPreparedKey(w, l), key, offset + 8 * n + l) && CircshiftPreparedKey(w, 0) == w
  {
    hide Prepared;
    SameMod4(8 * n + l, l, 2 * n);
    ShiftAdvances(w, key, offset, 8 * n + l, l);
  }

  /** The same byte by byte; the code uses only the low half of the prepared key. */
  method ByteMaskCirc(input: array<byte>, inAt: nat, output: array<byte>, outAt: nat, length: nat, preparedKey: word,
                      ghost key: Key, ghost offset: nat)
    returns (next: word)
    requires inAt + length <= input.Length && outAt + length <= output.Length
    requires SameOrApart(input, inAt, output, outAt) && Prepared(preparedKey, key, offset)
    modifies output
    ensures output[..] == Overwritten(old(output[..]), outAt, Masked(old(input[inAt..inAt + length]), key, offset))
    ensures Prepared(next, key, offset + length)
  {
    hide ByteOf, Overwritten, Turn, Xor;
    var low: Key := [ByteOf(preparedKey, 0), ByteOf(preparedKey, 1), ByteOf(preparedKey, 2), ByteOf(preparedKey, 3)];
    LowHalfMasks(input[inAt..inAt + length], preparedKey, key, offset);
    hide Masked, Prepared;
    ByteMask(input, inAt, output, outAt, length, low, 0);
    ShiftAdvances(preparedKey, key, offset, length, length % 4);
    next := CircshiftPreparedKey(preparedKey, length % 4);
  }

  lemma LowHalfMasks(data: seq<byte>, w: word, key: Key, offset: nat)
    requires Prepared(w, key, offset)
    ensures Masked(data, [ByteOf(w, 0), ByteOf(w, 1), ByteOf(w, 2), ByteOf(w, 3)], 0) == Masked(data, key, offset)
  {
    hide Xor, ByteOf;
    var low: Key := [ByteOf(w, 0), ByteOf(w, 1), ByteOf(w, 2), ByteOf(w, 3)];
    forall i | 0 <= i < |data| ensures low[i % 4] == key[(i + offset) % 4] {
      SameMod4(i + offset, i % 4 + offset, i / 4);
      assert low[i % 4] == ByteOf(w, i % 4);
    }
  }

  // ----- streaming -----

  /** A piece of a payload: its length, and whether it is masked by words or by bytes. */
  datatype Piece = Piece(length: nat, byWord: bool)

  function TotalLength(pieces: seq<Piece>): nat {
    if pieces == [] then 0 else TotalLength(pieces[..|pieces| - 1]) + pieces[|pieces| - 1].length
  }

  lemma NoPieces(pieces: seq<Piece>)
    ensures TotalLength(pieces[..0]) == 0
  {
  }

  lemma NextPiece(pieces: seq<Piece>, i: nat)
    requires i < |pieces|
    ensures TotalLength(pieces[..i + 1]) == TotalLength(pieces[..i]) + pieces[i].length
  {
    assert pieces[..i + 1][..i] == pieces[..i];
  }

  lemma PieceDone(src: seq<byte>, at: nat, end: nat, key: Key)
    requires at <= end <= |src|
    ensures Overwritten(Masked(src[..at], key, 0) + src[at..], at, Masked(src[at..end], key, at))
            == Masked(src[..end], key, 0) + src[end..]
  {
    hide Masked;
    MaskedAppend(src[..at], src[at..end], key, 0);
    assert src[..at] + src[at..end] == src[..end];
  }

  /** Masking a payload in place, piece by piece in any sizes and by any mix of the two functions,
      handing the prepared key on, masks the whole payload. */
  method MaskInPieces(data: array<byte>, pieces: seq<Piece>, key: Key)
    requires TotalLength(pieces) == data.Length
    modifies data
    ensures data[..] == Masked(old(data[..]), key, 0)
  {
    hide Masked, Prepared, PrepareMaskingKey, Overwritten, TotalLength;
    ghost var src := data[..];
    NoPieces(pieces);
    var prepared := PrepareMaskingKey(key);
    PreparedAtStart(key);
    MaskedNothing(key, 0);
    var at := 0;
    for i := 0 to |pieces|
      invariant at == TotalLength(pieces[..i]) <= data.Length
      invariant data[..] == Masked(src[..at], key, 0) + src[at..]
      invariant Prepared(prepared, key, at)
    {
      PrefixLength(pieces, i + 1);
      NextPiece(pieces, i);
      prepared := MaskPiece(data, at, pieces[i], prepared, key, src);
      at := at + pieces[i].length;
    }
    assert pieces[..|pieces|] == pieces;
    assert src[..at] == src;
  }

  /** One piece, by whichever function. */
  method MaskPiece(data: array<byte>, at: nat, piece: Piece, prepared: word, key: Key, ghost src: seq<byte>)
    returns (next: word)
    requires at + piece.length <= |src| == data.Length && Prepared(prepared, key, at)
    requires data[..] == Masked(src[..at], key, 0) + src[at..]
    modifies data
    ensures data[..] == Masked(src[..at + piece.length], key, 0) + src[at + piece.length..]
    ensures Prepared(next, key, at + piece.length)
  {
    hide Masked, Prepared, Overwritten;
    BehindFront(Masked(src[..at], key, 0), src, at + piece.length);
    PieceDone(src, at, at + piece.length, key);
    if piece.byWord {
      next := WordMaskCirc(data, at, data, at, piece.length, prepared, key, at);
    } else {
      next := ByteMaskCirc(data, at, data, at, piece.length, prepared, key, at);
    }
  }

  lemma {:induction false} PrefixLength(pieces: seq<Piece>, i: nat)
    requires i <= |pieces|
    ensures TotalLength(pieces[..i]) <= TotalLength(pieces)
    decreases |pieces|
  {
    if i < |pieces| {
      var front := pieces[..|pieces| - 1];
      PrefixLength(front, i);
      assert front[..i] == pieces[..i];
    } else {
      assert pieces[..i] == pieces;
    }
  }
}
