/** The two MD5 implementations side by side: they agree on every message, however it is cut up. */
module Md5Agreement {
  import opened Sequences
  import opened Md5Spec
  import Md5Class
  import Md5Websocket

  /** Any sequence of Update calls followed by Finalize yields the digest of the whole message. */
  method DigestByUpdates(chunks: seq<seq<byte>>) returns (digest: seq<byte>)
    requires forall i | 0 <= i < |chunks| :: |chunks[i]| <= 0xFFFF_FFC0
    ensures digest == Digest(Flatten(chunks))
  {
    hide Holds, Digest;
    var alg := new Md5Class.Md5();
    for i := 0 to |chunks|
      invariant alg.Valid() && alg.message == Flatten(chunks[..i])
      invariant fresh(alg) && fresh(alg.buffer)
    {
      assert chunks[..i + 1] == chunks[..i] + [chunks[i]];
      FlattenSnoc(chunks[..i], chunks[i]);
      alg.Update(chunks[i]);
    }
    assert chunks[..|chunks|] == chunks;
    alg.Finalize();
    digest := alg.digest[..];
  }

  method DigestByAppends(chunks: seq<seq<byte>>) returns (digest: seq<byte>)
    requires forall i | 0 <= i < |chunks| :: |chunks[i]| <= TWO_64 - 64
    ensures digest == Digest(Flatten(chunks))
  {
    hide Holds, Digest;
    var state := new Md5Websocket.State();
    for i := 0 to |chunks|
      invariant state.Valid() && state.message == Flatten(chunks[..i])
      invariant fresh(state) && fresh(state.buf)
    {
      assert chunks[..i + 1] == chunks[..i] + [chunks[i]];
      FlattenSnoc(chunks[..i], chunks[i]);
      state.Append(chunks[i]);
    }
    assert chunks[..|chunks|] == chunks;
    digest := state.Finish();
  }

  /** Two independent ways of cutting the same message, one for each implementation. */
  method DigestsAgree(cuts: seq<seq<byte>>, otherCuts: seq<seq<byte>>) returns (d: seq<byte>, e: seq<byte>)
    requires forall i | 0 <= i < |cuts| :: |cuts[i]| <= 0xFFFF_FFC0
    requires forall i | 0 <= i < |otherCuts| :: |otherCuts[i]| <= TWO_64 - 64
    requires Flatten(cuts) == Flatten(otherCuts)
    ensures d == e
  {
    d := DigestByUpdates(cuts);
    e := DigestByAppends(otherCuts);
  }

  /** Prints each byte as two hexadecimal digits. */
  method PrintMD5(digest: seq<byte>) returns (text: string)
    ensures text == Hex(digest)
  {
    text := "";
    for i := 0 to |digest|
      invariant text == Hex(digest[..i])
    {
      assert digest[..i + 1][..i] == digest[..i];
      var b := digest[i] as nat;
      text := text + [HexDigit(b / 16), HexDigit(b % 16)];
    }
    assert digest[..|digest|] == digest;
  }

  /** What a C string of these bytes holds: everything before the first NUL. */
  function BeforeNul(s: seq<byte>): seq<byte> {
    if s == [] || s[0] == 0 then [] else [s[0]] + BeforeNul(s[1..])
  }

  lemma {:induction false} BeforeFirstNul(text: seq<byte>, behind: seq<byte>)
    requires 0 !in text
    ensures BeforeNul(text + [0] + behind) == text
  {
    var s := text + [0] + behind;
    if text != [] {
      assert s[1..] == text[1..] + [0] + behind;
      BeforeFirstNul(text[1..], behind);
    }
  }

  method StringLength(s: seq<byte>) returns (n: nat)
    ensures n <= |s| && s[..n] == BeforeNul(s)
  {
    n := 0;
    while n < |s| && s[n] != 0
      invariant n <= |s| && s[..n] + BeforeNul(s[n..]) == BeforeNul(s)
    {
      n := n + 1;
    }
    assert s[..n] + [] == s[..n];
  }

  /** The digest of a C string as text. */
  method MD5String(s: seq<byte>) returns (text: string)
    requires |BeforeNul(s)| < 0x8000_0000
    ensures text == Hex(Digest(BeforeNul(s)))
  {
    var n := StringLength(s);
    var alg := new Md5Class.Md5();
    alg.Update(s[..n]);
    assert [] + s[..n] == s[..n];
    alg.Finalize();
    text := PrintMD5(alg.digest[..]);
  }

  const HEXVAL: string := "0123456789abcdef"

  /** The two halves of a byte, by shift and mask. */
  method Nibbles(b: byte) returns (high: nat, low: nat)
    ensures high == b as nat / 16 && low == b as nat % 16
  {
    high := ((b >> 4) & 0xF) as nat;
    low := (b & 0x0F) as nat;
  }

  /** The digest of a whole string as text, embedded NULs included. */
  method Md5HashHex(input: seq<byte>) returns (hex: string)
    requires |input| <= TWO_64 - 64
    ensures hex == Hex(Digest(input))
  {
    hide Holds, Digest;
    var state := new Md5Websocket.State();
    state.Append(input);
    assert [] + input == input;
    var hash := state.Finish();
    hex := TextOf(hash);
  }

  /** The digits of each byte, high half first. */
  method TextOf(hash: seq<byte>) returns (hex: string)
    ensures hex == Hex(hash)
  {
    hex := "";
    for i := 0 to |hash|
      invariant hex == Hex(hash[..i])
    {
      assert hash[..i + 1][..i] == hash[..i];
      var high, low := Nibbles(hash[i]);
      hex := hex + [HEXVAL[high]];
      hex := hex + [HEXVAL[low]];
    }
    assert hash[..|hash|] == hash;
  }

  /** On text without NUL both convenience functions give the same string. */
  method HexAgrees(s: seq<byte>) returns (t: string, u: string)
    requires |s| < 0x8000_0000 && 0 !in s
    ensures t == u
  {
    NoNul(s);
    t := MD5String(s);
    u := Md5HashHex(s);
  }

  lemma {:induction false} NoNul(s: seq<byte>)
    ensures BeforeNul(s) == s <==> 0 !in s
  {
    if s != [] {
      NoNul(s[1..]);
      if s[0] != 0 {
        assert s == [s[0]] + s[1..];
      }
    }
  }
}
