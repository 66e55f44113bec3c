/** The table-driven UTF-8 decoder and the streaming validator built on it. */
module Utf8Validator {
  import opened Sequences
  import opened Utf8Spec

  // ----- the lookup table of the decoder -----

  /** The first 256 entries of the table, sixteen to the row: the class of each byte. */
  function TypeRow(i: nat): (row: seq<nat>)
    requires i < 16
    ensures |row| == 16
  {
    if i < 8 then seq(16, _ => 0) // 0x00 .. 0x7f
    else if i == 8 then seq(16, _ => 1) // 0x80 .. 0x8f
    else if i == 9 then seq(16, _ => 9) // 0x90 .. 0x9f
    else if i == 10 then seq(16, _ => 7) // 0xa0 .. 0xaf
    else if i == 11 then seq(16, _ => 7) // 0xb0 .. 0xbf
    else if i == 12 then [8, 8, 2, 2, 2, 2, 2, 2, 2, 2, 2, 2, 2, 2, 2, 2] // 0xc0 .. 0xcf
    else if i == 13 then seq(16, _ => 2) // 0xd0 .. 0xdf
    else if i == 14 then [10, 3, 3, 3, 3, 3, 3, 3, 3, 3, 3, 3, 3, 4, 3, 3] // 0xe0 .. 0xef
    else [11, 6, 6, 6, 5, 8, 8, 8, 8, 8, 8, 8, 8, 8, 8, 8] // 0xf0 .. 0xff
  }

  /** The other 144 entries: the state that follows each state, by class. */
  function StateRow(state: nat): (row: seq<nat>)
    requires state <= 8
    ensures |row| == 16
  {
    if state == 0 then [0, 1, 2, 3, 5, 8, 7, 1, 1, 1, 4, 6, 1, 1, 1, 1]
    else if state == 1 then seq(16, _ => 1)
    else if state == 2 then [1, 0, 1, 1, 1, 1, 1, 0, 1, 0, 1, 1, 1, 1, 1, 1]
    else if state == 3 then [1, 2, 1, 1, 1, 1, 1, 2, 1, 2, 1, 1, 1, 1, 1, 1]
    else if state == 4 then [1, 1, 1, 1, 1, 1, 1, 2, 1, 1, 1, 1, 1, 1, 1, 1]
    else if state == 5 then [1, 2, 1, 1, 1, 1, 1, 1, 1, 2, 1, 1, 1, 1, 1, 1]
    else if state == 6 then [1, 1, 1, 1, 1, 1, 1, 3, 1, 3, 1, 1, 1, 1, 1, 1]
    else if state == 7 then [1, 3, 1, 1, 1, 1, 1, 3, 1, 3, 1, 1, 1, 1, 1, 1]
    else [1, 3, 1, 1, 1, 1, 1, 1, 1, 1, 1, 1, 1, 1, 1, 1]
  }

  const UTF8D: seq<nat> :=
    seq(256, k requires 0 <= k < 256 => TypeRow(k / 16)[k % 16])
    + seq(144, k requires 0 <= k < 144 => StateRow(k / 16)[k % 16])

  const ACCEPT: nat := 0
  const REJECT: nat := 1

  // ----- what the table means -----

  /** The byte classes that section 4 of RFC 3629 tells apart. */
  function ByteClass(b: byte): (t: nat)
    ensures t <= 11
  {
    ClassOfNumber(b as nat)
  }

  function ClassOfNumber(k: nat): (t: nat)
    ensures t <= 11
  {
    if k <= 0x7F then 0
    else if k <= 0x8F then 1
    else if k <= 0x9F then 9
    else if k <= 0xBF then 7
    else if k <= 0xC1 then 8
    else if k <= 0xDF then 2
    else if k == 0xE0 then 10
    else if k == 0xED then 4
    else if k <= 0xEF then 3
    else if k == 0xF0 then 11
    else if k <= 0xF3 then 6
    else if k == 0xF4 then 5
    else 8
  }

  /** The state after a byte: 0 accepts, 1 rejects, 2 and 3 want one and two more tails, 4 and 5
      follow E0 and ED, 6, 7 and 8 follow F0, F1 to F3 and F4. */
  function Next(state: nat, b: byte): (next: nat)
    ensures next <= 8
  {
    if state == ACCEPT then
      if b <= 0x7F then ACCEPT
      else if 0xC2 <= b <= 0xDF then 2
      else if b == 0xE0 then 4
      else if b == 0xED then 5
      else if 0xE1 <= b <= 0xEF then 3
      else if b == 0xF0 then 6
      else if 0xF1 <= b <= 0xF3 then 7
      else if b == 0xF4 then 8
      else REJECT
    else if state == 2 && IsTail(b) then ACCEPT
    else if state == 3 && IsTail(b) then 2
    else if state == 4 && 0xA0 <= b <= 0xBF then 2
    else if state == 5 && 0x80 <= b <= 0x9F then 2
    else if state == 6 && 0x90 <= b <= 0xBF then 3
    else if state == 7 && IsTail(b) then 3
    else if state == 8 && 0x80 <= b <= 0x8F then 3
    else REJECT
  }

  lemma TypeRowMeaning(i: nat, j: nat)
    requires i < 16 && j < 16
    ensures TypeRow(i)[j] == ClassOfNumber(i * 16 + j)
  {
  }

  /** Next, as a function of the byte's class. */
  function NextOfClass(state: nat, t: nat): nat {
    if state == ACCEPT then
      if t == 0 then ACCEPT
      else if t == 2 || t == 3 then t
      else if t == 4 then 5
      else if t == 5 then 8
      else if t == 6 then 7
      else if t == 10 then 4
      else if t == 11 then 6
      else REJECT
    else if state == 2 then if t == 1 || t == 7 || t == 9 then ACCEPT else REJECT
    else if state == 3 then if t == 1 || t == 7 || t == 9 then 2 else REJECT
    else if state == 4 then if t == 7 then 2 else REJECT
    else if state == 5 then if t == 1 || t == 9 then 2 else REJECT
    else if state == 6 then if t == 7 || t == 9 then 3 else REJECT
    else if state == 7 then if t == 1 || t == 7 || t == 9 then 3 else REJECT
    else if state == 8 then if t == 1 then 3 else REJECT
    else REJECT
  }

  lemma StateRowMeaning(state: nat, t: nat)
    requires state <= 8 && t < 16
    ensures StateRow(state)[t] == NextOfClass(state, t)
  {
  }

  lemma NextByClass(state: nat, b: byte)
    requires state <= 8
    ensures NextOfClass(state, ByteClass(b)) == Next(state, b)
  {
  }

  lemma TypeEntry(k: nat)
    requires k < 256
    ensures UTF8D[k] == ClassOfNumber(k)
  {
    assert UTF8D[k] == TypeRow(k / 16)[k % 16];
    TypeRowMeaning(k / 16, k % 16);
  }

  lemma StateEntry(state: nat, t: nat)
    requires state <= 8 && t < 16
    ensures UTF8D[256 + state * 16 + t] == NextOfClass(state, t)
  {
    var k := state * 16 + t;
    assert k / 16 == state && k % 16 == t;
    assert UTF8D[256 + k] == StateRow(state)[t];
    StateRowMeaning(state, t);
  }

  /** The whole table: bytes are classified in its first 256 entries, and the rest is Next. */
  lemma TableMeaning(state: nat, b: byte)
    requires state <= 8
    ensures UTF8D[b as nat] == ByteClass(b)
    ensures UTF8D[256 + state * 16 + ByteClass(b)] == Next(state, b)
  {
    TypeEntry(b as nat);
    StateEntry(state, ByteClass(b));
    NextByClass(state, b);
  }

  // ----- the decoder as an automaton -----

  /** The decoder's two variables. */
  datatype Decoder = Decoder(state: nat, codep: bv32)

  const START := Decoder(ACCEPT, 0)

  function LeadBits(b: byte): bv32 {
    (0xFF >> ByteClass(b)) & b as bv32
  }

  function Step(d: Decoder, b: byte): Decoder {
    Decoder(Next(d.state, b),
            if d.state != ACCEPT then (b & 0x3F) as bv32 | (d.codep << 6) else LeadBits(b))
  }

  function Run(d: Decoder, s: seq<byte>): Decoder
    decreases |s|
  {
    if s == [] then d else Run(Step(d, s[0]), s[1..])
  }

  /** The values of codep each time the automaton returns to the accept state. */
  function Yield(d: Decoder, s: seq<byte>): seq<bv32>
    decreases |s|
  {
    if s == [] then []
    else
      var next := Step(d, s[0]);
      (if next.state == ACCEPT then [next.codep] else []) + Yield(next, s[1..])
  }

  lemma RunAppend(d: Decoder, s: seq<byte>, t: seq<byte>)
    ensures Run(d, s + t) == Run(Run(d, s), t)
    decreases |s|
  {
    if s == [] {
      assert s + t == t;
    } else {
      assert (s + t)[1..] == s[1..] + t;
      RunAppend(Step(d, s[0]), s[1..], t);
    }
  }

  lemma YieldAppend(d: Decoder, s: seq<byte>, t: seq<byte>)
    ensures Yield(d, s + t) == Yield(d, s) + Yield(Run(d, s), t)
    decreases |s|
  {
    if s == [] {
      assert s + t == t;
    } else {
      assert (s + t)[1..] == s[1..] + t;
      YieldAppend(Step(d, s[0]), s[1..], t);
    }
  }

  /** Nothing leaves the reject state. */
  lemma RejectIsAbsorbing(d: Decoder, s: seq<byte>)
    requires d.state == REJECT
    ensures Run(d, s).state == REJECT
    decreases |s|
  {
    if s != [] {
      RejectIsAbsorbing(Step(d, s[0]), s[1..]);
    }
  }

  // ----- one character -----

  lemma LeadBitsOfLead(b: byte)
    ensures b <= 0x7F ==> LeadBits(b) == b as bv32
    ensures 0xC2 <= b <= 0xDF ==> LeadBits(b) == (b & 0x1F) as bv32
    ensures 0xE0 <= b <= 0xEF ==> LeadBits(b) == (b & 0x0F) as bv32
    ensures 0xF0 <= b <= 0xF4 ==> LeadBits(b) == (b & 0x07) as bv32
  {
  }

  lemma ShiftedIn(b0: byte, b1: byte, b2: byte, b3: byte)
    ensures (b1 & 0x3F) as bv32 | ((b0 & 0x1F) as bv32 << 6) == Bits2(b0, b1)
    ensures (b2 & 0x3F) as bv32 | (((b1 & 0x3F) as bv32 | ((b0 & 0x0F) as bv32 << 6)) << 6) == Bits3(b0, b1, b2)
    ensures (b3 & 0x3F) as bv32 | (((b2 & 0x3F) as bv32
              | (((b1 & 0x3F) as bv32 | ((b0 & 0x07) as bv32 << 6)) << 6)) << 6)
         == Bits4(b0, b1, b2, b3)
  {
  }

  lemma RunUnrolled(d: Decoder, c: seq<byte>)
    requires 1 <= |c| <= 4
    ensures var d1 := Step(d, c[0]);
            if |c| == 1 then Run(d, c) == d1 else
            var d2 := Step(d1, c[1]);
            if |c| == 2 then Run(d, c) == d2 else
            var d3 := Step(d2, c[2]);
            if |c| == 3 then Run(d, c) == d3 else Run(d, c) == Step(d3, c[3])
  {
    var k := |c| - 1;
    if k > 0 {
      assert c == c[..k] + [c[k]];
      RunAppend(d, c[..k], [c[k]]);
      RunUnrolled(d, c[..k]);
      assert Run(Run(d, c[..k]), [c[k]]) == Step(Run(d, c[..k]), c[k]);
    }
  }

  lemma YieldUnrolled(d: Decoder, c: seq<byte>)
    requires 1 <= |c| <= 4
    requires forall i | 0 < i < |c| :: Run(d, c[..i]).state != ACCEPT
    requires Run(d, c).state == ACCEPT
    ensures Yield(d, c) == [Run(d, c).codep]
    decreases |c|
  {
    if |c| > 1 {
      assert c == c[..1] + c[1..];
      RunAppend(d, c[..1], c[1..]);
      forall i | 0 < i < |c[1..]| ensures Run(Step(d, c[0]), c[1..][..i]).state != ACCEPT {
        assert c[..i + 1] == [c[0]] + c[1..][..i];
        RunAppend(d, [c[0]], c[1..][..i]);
      }
      YieldUnrolled(Step(d, c[0]), c[1..]);
      assert Run(d, c[..1]).state != ACCEPT;
    }
  }

  lemma RunChar2(c: seq<byte>, codep: bv32)
    requires |c| == 2 && IsChar(c)
    ensures Run(Decoder(ACCEPT, codep), c) == Decoder(ACCEPT, ScalarOf(c))
  {
    RunUnrolled(Decoder(ACCEPT, codep), c);
    LeadBitsOfLead(c[0]);
    ShiftedIn(c[0], c[1], 0, 0);
  }

  lemma RunChar3(c: seq<byte>, codep: bv32)
    requires |c| == 3 && IsChar(c)
    ensures Run(Decoder(ACCEPT, codep), c) == Decoder(ACCEPT, ScalarOf(c))
  {
    RunUnrolled(Decoder(ACCEPT, codep), c);
    LeadBitsOfLead(c[0]);
    ShiftedIn(c[0], c[1], c[2], 0);
  }

  lemma RunChar4(c: seq<byte>, codep: bv32)
    requires |c| == 4 && IsChar(c)
    ensures Run(Decoder(ACCEPT, codep), c) == Decoder(ACCEPT, ScalarOf(c))
  {
    RunUnrolled(Decoder(ACCEPT, codep), c);
    LeadBitsOfLead(c[0]);
    ShiftedIn(c[0], c[1], c[2], c[3]);
  }

  /** A character takes the automaton from accept to accept and leaves its scalar value in codep ... */
  lemma RunChar(c: seq<byte>, codep: bv32)
    requires IsChar(c)
    ensures Run(Decoder(ACCEPT, codep), c) == Decoder(ACCEPT, ScalarOf(c))
  {
    if |c| == 1 {
      LeadBitsOfLead(c[0]);
      RunUnrolled(Decoder(ACCEPT, codep), c);
    } else if |c| == 2 {
      RunChar2(c, codep);
    } else if |c| == 3 {
      RunChar3(c, codep);
    } else {
      RunChar4(c, codep);
    }
  }

  /** ... passing neither on the way. */
  lemma InsideChar(c: seq<byte>, codep: bv32, i: nat)
    requires IsChar(c) && 0 < i < |c|
    ensures Run(Decoder(ACCEPT, codep), c[..i]).state !in {ACCEPT, REJECT}
  {
    RunUnrolled(Decoder(ACCEPT, codep), c[..i]);
  }

  lemma YieldChar(c: seq<byte>, codep: bv32)
    requires IsChar(c)
    ensures Yield(Decoder(ACCEPT, codep), c) == [ScalarOf(c)]
  {
    RunChar(c, codep);
    forall i | 0 < i < |c| ensures Run(Decoder(ACCEPT, codep), c[..i]).state != ACCEPT {
      InsideChar(c, codep, i);
    }
    YieldUnrolled(Decoder(ACCEPT, codep), c);
  }

  lemma FirstAcceptIsChar(c: seq<byte>, codep: bv32)
    requires 1 <= |c| <= 4
    requires forall i | 0 < i < |c| :: Run(Decoder(ACCEPT, codep), c[..i]).state != ACCEPT
    requires Run(Decoder(ACCEPT, codep), c).state == ACCEPT
    ensures IsChar(c)
  {
    var d := Decoder(ACCEPT, codep);
    RunUnrolled(d, c);
    forall i | 0 < i < |c| ensures Run(d, c[..i]).state != ACCEPT {
    }
    if |c| > 1 {
      RunUnrolled(d, c[..1]);
    }
    if |c| > 2 {
      RunUnrolled(d, c[..2]);
    }
    if |c| > 3 {
      RunUnrolled(d, c[..3]);
    }
  }

  lemma FourBytesAreEnough(c: seq<byte>, codep: bv32)
    requires |c| == 4 && Run(Decoder(ACCEPT, codep), c).state != REJECT
    requires forall i | 0 < i < |c| :: Run(Decoder(ACCEPT, codep), c[..i]).state !in {ACCEPT, REJECT}
    ensures Run(Decoder(ACCEPT, codep), c).state == ACCEPT
  {
    var d := Decoder(ACCEPT, codep);
    RunUnrolled(d, c);
    RunUnrolled(d, c[..1]);
    RunUnrolled(d, c[..2]);
    RunUnrolled(d, c[..3]);
  }

  lemma NoRejectOnTheWay(d: Decoder, s: seq<byte>, i: nat)
    requires i <= |s| && Run(d, s).state != REJECT
    ensures Run(d, s[..i]).state != REJECT
  {
    assert s == s[..i] + s[i..];
    RunAppend(d, s[..i], s[i..]);
    if Run(d, s[..i]).state == REJECT {
      RejectIsAbsorbing(Run(d, s[..i]), s[i..]);
    }
  }

  /** A run that ends in accept begins with a character. */
  lemma AcceptedStartsWithChar(s: seq<byte>, codep: bv32) returns (n: nat)
    requires s != [] && Run(Decoder(ACCEPT, codep), s).state == ACCEPT
    ensures 1 <= n <= |s| && IsChar(s[..n])
  {
    var d := Decoder(ACCEPT, codep);
    assert s[..|s|] == s;
    n := 1;
    while n < |s| && n < 4 && Run(d, s[..n]).state != ACCEPT
      invariant 1 <= n <= |s| && n <= 4
      invariant forall i | 0 < i < n :: Run(d, s[..i]).state != ACCEPT
    {
      n := n + 1;
    }
    var c := s[..n];
    forall i | 0 < i < n ensures Run(d, c[..i]).state !in {ACCEPT, REJECT} {
      assert c[..i] == s[..i];
      NoRejectOnTheWay(d, s, i);
    }
    NoRejectOnTheWay(d, s, n);
    if Run(d, c).state != ACCEPT {
      FourBytesAreEnough(c, codep);
    }
    FirstAcceptIsChar(c, codep);
  }

  // ----- the accepted language -----

  lemma AcceptedIsEncoding(s: seq<byte>, codep: bv32) returns (vs: seq<Scalar>)
    requires Run(Decoder(ACCEPT, codep), s).state == ACCEPT
    ensures Yield(Decoder(ACCEPT, codep), s) == vs
    ensures EncodeAll(vs) == s
    decreases |s|
  {
    if s == [] {
      vs := [];
    } else {
      var n := AcceptedStartsWithChar(s, codep);
      var c, rest := s[..n], s[n..];
      assert s == c + rest;
      RunChar(c, codep);
      YieldChar(c, codep);
      CharIsEncoding(c);
      RunAppend(Decoder(ACCEPT, codep), c, rest);
      YieldAppend(Decoder(ACCEPT, codep), c, rest);
      var ws := AcceptedIsEncoding(rest, ScalarOf(c));
      vs := [ScalarOf(c)] + ws;
      assert vs[1..] == ws;
    }
  }

  /** The automaton reads back exactly the scalar values that were encoded ... */
  lemma {:induction false} DecodesEncoding(vs: seq<Scalar>, codep: bv32)
    ensures Run(Decoder(ACCEPT, codep), EncodeAll(vs)).state == ACCEPT
    ensures Yield(Decoder(ACCEPT, codep), EncodeAll(vs)) == vs
  {
    if vs == [] {
    } else {
      var c, rest := Encode(vs[0]), EncodeAll(vs[1..]);
      EncodingIsChar(vs[0]);
      RunChar(c, codep);
      YieldChar(c, codep);
      RunAppend(Decoder(ACCEPT, codep), c, rest);
      YieldAppend(Decoder(ACCEPT, codep), c, rest);
      DecodesEncoding(vs[1..], vs[0]);
      assert vs == [vs[0]] + vs[1..];
    }
  }

  /** ... and encoding what it reads from an accepted string gives the string back. */
  lemma EncodesDecoding(s: seq<byte>)
    requires Run(START, s).state == ACCEPT
    ensures exists vs: seq<Scalar> :: Yield(START, s) == vs && EncodeAll(vs) == s
  {
    var vs := AcceptedIsEncoding(s, 0);
  }

  lemma CharsAreEncoding(cs: seq<seq<byte>>) returns (vs: seq<Scalar>)
    requires forall i | 0 <= i < |cs| :: IsChar(cs[i])
    ensures EncodeAll(vs) == Flatten(cs)
  {
    if cs == [] {
      vs := [];
    } else {
      var ws := CharsAreEncoding(cs[1..]);
      CharIsEncoding(cs[0]);
      vs := [ScalarOf(cs[0])] + ws;
      assert vs[1..] == ws;
    }
  }

  lemma EncodingIsChars(vs: seq<Scalar>) returns (cs: seq<seq<byte>>)
    ensures forall i | 0 <= i < |cs| :: IsChar(cs[i])
    ensures Flatten(cs) == EncodeAll(vs)
  {
    if vs == [] {
      cs := [];
    } else {
      var ds := EncodingIsChars(vs[1..]);
      EncodingIsChar(vs[0]);
      cs := [Encode(vs[0])] + ds;
      assert cs[1..] == ds;
    }
  }

  /** The automaton ends in accept exactly on the octet sequences of section 4 of RFC 3629. */
  lemma AcceptsExactlyUtf8(s: seq<byte>)
    ensures Run(START, s).state == ACCEPT <==> IsUtf8(s)
  {
    if Run(START, s).state == ACCEPT {
      var vs := AcceptedIsEncoding(s, 0);
      var cs := EncodingIsChars(vs);
    }
    if IsUtf8(s) {
      var cs :| (forall i | 0 <= i < |cs| :: IsChar(cs[i])) && Flatten(cs) == s;
      var vs := CharsAreEncoding(cs);
      DecodesEncoding(vs, 0);
    }
  }

  /** Bytes that lead from a state other than reject to accept. */
  function Completion(state: nat): seq<byte> {
    if state == 2 then [0x80]
    else if state == 3 then [0x80, 0x80]
    else if state == 4 then [0xA0, 0x80]
    else if state == 5 then [0x80, 0x80]
    else if state == 6 then [0x90, 0x80, 0x80]
    else if state == 7 || state == 8 then [0x80, 0x80, 0x80]
    else []
  }

  lemma CompletionAccepts(d: Decoder)
    requires d.state <= 8 && d.state != REJECT
    ensures Run(d, Completion(d.state)).state == ACCEPT
  {
    if d.state != ACCEPT {
      RunUnrolled(d, Completion(d.state));
    }
  }

  lemma RunStates(d: Decoder, s: seq<byte>)
    requires d.state <= 8
    ensures Run(d, s).state <= 8
    decreases |s|
  {
    if s != [] {
      RunStates(Step(d, s[0]), s[1..]);
    }
  }

  /** The automaton rejects at once: exactly when no continuation can be well-formed. */
  lemma RejectsExactlyHopeless(s: seq<byte>)
    ensures Run(START, s).state == REJECT <==> !IsUtf8Prefix(s)
  {
    var d := Run(START, s);
    RunStates(START, s);
    if d.state != REJECT {
      var t := Completion(d.state);
      CompletionAccepts(d);
      RunAppend(START, s, t);
      AcceptsExactlyUtf8(s + t);
    } else {
      forall t ensures !IsUtf8(s + t) {
        RunAppend(START, s, t);
        RejectIsAbsorbing(d, t);
        AcceptsExactlyUtf8(s + t);
      }
    }
  }

  lemma HopelessForGood(s: seq<byte>, t: seq<byte>)
    requires Run(START, s).state == REJECT
    ensures Run(START, s + t).state == REJECT && !IsUtf8Prefix(s + t)
  {
    RunAppend(START, s, t);
    RejectIsAbsorbing(Run(START, s), t);
    RejectsExactlyHopeless(s + t);
  }

  // ----- the validator -----

  /** One step of the decoder, by table lookup, as the code makes it. */
  method DecodeByte(state: nat, codep: bv32, b: byte) returns (state': nat, codep': bv32)
    requires state <= 8
    ensures Decoder(state', codep') == Step(Decoder(state, codep), b)
  {
    TableMeaning(state, b);
    var t := UTF8D[b as nat];
    codep' := if state != ACCEPT then (b & 0x3F) as bv32 | (codep << 6) else (0xFF >> t) & b as bv32;
    state' := UTF8D[256 + state * 16 + t];
  }

  class Validator {
    var state: nat
    var codepoint: bv32
    /** Every byte given to the validator since it was made or reset. */
    ghost var input: seq<byte>

    ghost predicate Valid()
      reads this
    {
      && state == Run(START, input).state
      && (state != REJECT ==> codepoint == Run(START, input).codep)
    }

    constructor ()
      ensures Valid() && input == []
    {
      state, codepoint, input := ACCEPT, 0, [];
    }

    /** False when the byte makes the input hopeless. */
    method Consume(b: byte) returns (ok: bool)
      requires Valid()
      modifies this
      ensures Valid() && input == old(input) + [b]
      ensures ok <==> IsUtf8Prefix(input)
    {
      RunStates(START, input);
      RunAppend(START, input, [b]);
      state, codepoint := DecodeByte(state, codepoint, b);
      input := input + [b];
      RejectsExactlyHopeless(input);
      if state == REJECT {
        return false;
      }
      return true;
    }

    /** Feeds a chunk, stopping at the first byte that makes the input hopeless. The answer for an
        empty chunk is true even when earlier chunks were rejected. */
    method Decode(chunk: seq<byte>) returns (ok: bool)
      requires Valid()
      modifies this
      ensures Valid() && input == old(input) + chunk
      ensures ok <==> chunk == [] || IsUtf8Prefix(input)
    {
      var i := 0;
      while i < |chunk|
        invariant 0 <= i <= |chunk|
        invariant input == old(input) + chunk[..i] && Valid()
        invariant i > 0 ==> state != REJECT
      {
        RunStates(START, input);
        RunAppend(START, input, [chunk[i]]);
        state, codepoint := DecodeByte(state, codepoint, chunk[i]);
        input := input + [chunk[i]];
        if state == REJECT {
          HopelessForGood(input, chunk[i + 1..]);
          input := input + chunk[i + 1..];
          assert chunk == chunk[..i] + [chunk[i]] + chunk[i + 1..];
          return false;
        }
        i := i + 1;
        assert chunk[..i] == chunk[..i - 1] + [chunk[i - 1]];
      }
      assert chunk[..i] == chunk;
      RejectsExactlyHopeless(input);
      return true;
    }

    /** Whether all input so far is well-formed UTF-8, however it was cut into chunks. */
    method Complete() returns (ok: bool)
      requires Valid()
      ensures ok <==> IsUtf8(input)
    {
      AcceptsExactlyUtf8(input);
      return state == ACCEPT;
    }

    method Reset()
      modifies this
      ensures Valid() && input == []
    {
      state, codepoint, input := ACCEPT, 0, [];
    }
  }

  method Validate(s: seq<byte>) returns (ok: bool)
    ensures ok <==> IsUtf8(s)
  {
    var v := new Validator();
    var hopeful := v.Decode(s);
    if !hopeful {
      assert v.input == s == s + [];
      assert IsUtf8(s) ==> IsUtf8(s + []);
      return false;
    }
    ok := v.Complete();
  }

  /** Streaming a message in any chunks gives the answer for the whole message. */
  method ValidateChunks(chunks: seq<seq<byte>>) returns (ok: bool)
    ensures ok <==> IsUtf8(Flatten(chunks))
  {
    var v := new Validator();
    for i := 0 to |chunks|
      invariant v.Valid() && v.input == Flatten(chunks[..i])
      invariant fresh(v)
    {
      assert chunks[..i + 1] == chunks[..i] + [chunks[i]];
      FlattenSnoc(chunks[..i], chunks[i]);
      var _ := v.Decode(chunks[i]);
    }
    assert chunks[..|chunks|] == chunks;
    ok := v.Complete();
  }
}
