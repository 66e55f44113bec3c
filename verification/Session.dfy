/** What the bytes of a WebSocket connection mean: frames, fragmented messages, and the errors of
    section 5 of RFC 6455, one byte at a time. */
module Session {
  import opened Options
  import opened Words
  import opened Masking
  import opened FrameHeader
  import U = Utf8Spec

  const CONTINUATION: Opcode := 0
  const TEXT: Opcode := 1

  predicate IsControl(op: Opcode) {
    op >= 0x8
  }

  predicate IsReserved(op: Opcode) {
    0x3 <= op <= 0x7 || 0xB <= op
  }

  /** Section 5.5 of RFC 6455: control opcodes are those with the most significant bit set. */
  lemma ControlBit(op: Opcode)
    ensures IsControl(op) <==> op & 0x8 == 0x8
  {
  }

  /** Sections 5.2, 5.5 and 5.6: the opcodes of data and of control frames; all others are reserved. */
  lemma OpcodesInUse(op: Opcode)
    ensures !IsReserved(op) && !IsControl(op) <==> op == 0x0 || op == 0x1 || op == 0x2
    ensures !IsReserved(op) && IsControl(op) <==> op == 0x8 || op == 0x9 || op == 0xA
  {
  }

  datatype Error =
    | ControlTooBig | InvalidRsvBit | InvalidOpcode | FragmentedControl | InvalidContinuation
    | MaskingRequired | MaskingForbidden | NonMinimalEncoding | MessageTooBig | InvalidUtf8
    | InvalidPayload

  datatype Message = Message(opcode: Opcode, payload: seq<byte>)

  /** What is being read: the two fixed bytes of a header, the bytes behind them, or a payload of which n
      octets are read. */
  datatype Phase =
    | Basic(got: seq<byte>)
    | Extended(b0: byte, b1: byte, got: seq<byte>)
    | Payload(h: Header, n: nat)
    | Ready(control: bool)
    | Failed(error: Error)

  /** One side of a connection: a data message and a control message, perhaps under way, and a phase. */
  datatype Session = Session(server: bool, maxSize: nat, data: Option<Message>, control: Option<Message>,
    phase: Phase) {
    predicate Reading() { !phase.Ready? && !phase.Failed? }

    function Fail(e: Error): Session { this.(phase := Failed(e)) }

    function Current(op: Opcode): Option<Message> { if IsControl(op) then control else data }

    function With(op: Opcode, m: Message): Session {
      if IsControl(op) then this.(control := Some(m)) else this.(data := Some(m))
    }
  }

  function Start(server: bool, maxSize: nat): Session {
    Session(server, maxSize, None, None, Basic([]))
  }

  function SizeOf(h: Header): nat {
    h.size as nat
  }

  /** What is wrong with the two fixed bytes of a header; newMessage if no data message is under way. */
  function BasicError(server: bool, newMessage: bool, b0: byte, b1: byte): Option<Error> {
    var op := OpcodeOf(b0);
    if IsControl(op) && BasicSize(b1) > 125 then Some(ControlTooBig)
    else if (b0 & 0x40) == 0x40 then Some(InvalidRsvBit)
    else if (b0 & 0x20) == 0x20 || (b0 & 0x10) == 0x10 then Some(InvalidRsvBit)
    else if IsReserved(op) then Some(InvalidOpcode)
    else if IsControl(op) && (b0 & 0x80) != 0x80 then Some(FragmentedControl)
    else if newMessage && op == CONTINUATION then Some(InvalidContinuation)
    else if !newMessage && !IsControl(op) && op != CONTINUATION then Some(InvalidContinuation)
    else if server && !IsMasked(b1) then Some(MaskingRequired)
    else if !server && IsMasked(b1) then Some(MaskingForbidden)
    else None
  }

  /** A frame begins: it starts a message or goes on with the data message under way. */
  function Begin(s: Session, h: Header): Session {
    if IsControl(h.opcode) then s.(control := Some(Message(h.opcode, [])), phase := Payload(h, 0))
    else if s.data.None? then
      if SizeOf(h) > s.maxSize then s.Fail(MessageTooBig)
      else s.(data := Some(Message(h.opcode, [])), phase := Payload(h, 0))
    else if (|s.data.value.payload| + SizeOf(h)) % 0x1_0000_0000_0000_0000 > s.maxSize then s.Fail(MessageTooBig)
    else s.(phase := Payload(h, 0))
  }

  /** A frame ends: its message is ready if the frame is final. The text of a message is judged as a
      whole only if its final frame is a text frame. */
  ghost function FrameDone(s: Session, h: Header): Session {
    var m := s.Current(h.opcode);
    if !h.fin then s.(phase := Basic([]))
    else if h.opcode == TEXT && m.Some? && !U.IsUtf8(m.value.payload) then s.Fail(InvalidUtf8)
    else s.(phase := Ready(IsControl(h.opcode)))
  }

  /** Goes on to the next phase as long as the present one needs no more bytes. */
  ghost function Settle(s: Session): Session
    decreases match s.phase case Basic(_) => 2 case Extended(_, _, _) => 1 case _ => 0
  {
    match s.phase
    case Basic(got) =>
      if |got| < 2 then s
      else
        (match BasicError(s.server, s.data.None?, got[0], got[1])
         case Some(e) => s.Fail(e)
         case None => Settle(s.(phase := Extended(got[0], got[1], []))))
    case Extended(b0, b1, got) =>
      if |got| != HeaderLength(b1) - 2 then s
      else
        var h := Decode([b0, b1] + got);
        if IsNonMinimal(b1, h.size) then s.Fail(NonMinimalEncoding) else Settle(Begin(s, h))
    case Payload(h, n) => if n == SizeOf(h) then FrameDone(s, h) else s
    case _ => s
  }

  /** The bytes of a payload from its n-th on, unmasked. */
  function Unmasked(h: Header, n: nat, bytes: seq<byte>): (r: seq<byte>)
    ensures |r| == |bytes|
  {
    match h.key
    case Some(key) => Masked(bytes, key, n)
    case None => bytes
  }

  /** Payload bytes arrive; a text that no continuation can make UTF-8 is refused at once. */
  ghost function AddPayload(s: Session, h: Header, n: nat, bytes: seq<byte>): Session {
    match s.Current(h.opcode)
    case None => s
    case Some(m) =>
      var m' := m.(payload := m.payload + Unmasked(h, n, bytes));
      if m.opcode == TEXT && !U.IsUtf8Prefix(m'.payload) then s.Fail(InvalidUtf8)
      else s.With(h.opcode, m').(phase := Payload(h, n + |bytes|))
  }

  ghost function Add(s: Session, b: byte): Session {
    match s.phase
    case Basic(got) => s.(phase := Basic(got + [b]))
    case Extended(b0, b1, got) => s.(phase := Extended(b0, b1, got + [b]))
    case Payload(h, n) => AddPayload(s, h, n, [b])
    case _ => s
  }

  /** Where a run of bytes leads, and the bytes it left because a message was ready or an error found. */
  datatype Ran = Ran(end: Session, rest: seq<byte>)

  ghost function Run(s: Session, bytes: seq<byte>): Ran
    decreases |bytes|
  {
    if bytes == [] || !s.Reading() then Ran(s, bytes) else Run(Settle(Add(s, bytes[0])), bytes[1..])
  }

  // ----- reading on -----

  /** Bytes may arrive in any two pieces. */
  lemma {:induction false} RunAppend(s: Session, a: seq<byte>, b: seq<byte>)
    ensures Run(s, a + b) == var r := Run(s, a);
                             if r.end.Reading() then Run(r.end, b) else Ran(r.end, r.rest + b)
    ensures var r := Run(s, a); r.end.Reading() ==> r.rest == []
    decreases |a|
  {
    hide Settle, Add;
    if a == [] {
      assert a + b == b;
    } else if s.Reading() {
      assert (a + b)[1..] == a[1..] + b;
      RunAppend(Settle(Add(s, a[0])), a[1..], b);
    }
  }

  /** While bytes are read, the rest shrinks. */
  lemma {:induction false} RestShrinks(s: Session, bytes: seq<byte>)
    ensures |Run(s, bytes).rest| <= |bytes|
    ensures s.Reading() && bytes != [] ==> |Run(s, bytes).rest| < |bytes|
    ensures exists k | 0 <= k <= |bytes| :: Run(s, bytes).rest == bytes[k..]
    decreases |bytes|
  {
    hide Settle, Add;
    if bytes == [] || !s.Reading() {
      assert bytes[0..] == bytes;
    } else {
      RestShrinks(Settle(Add(s, bytes[0])), bytes[1..]);
      var k :| 0 <= k <= |bytes[1..]| && Run(s, bytes).rest == bytes[1..][k..];
      assert bytes[1..][k..] == bytes[k + 1..];
    }
  }

  lemma BasicWaits(s: Session, got: seq<byte>)
    requires s.phase == Basic(got) && |got| < 2
    ensures Settle(s) == s && s.Reading()
  {
  }

  /** The two fixed bytes may arrive together or one by one. */
  lemma {:induction false} RunBasic(s: Session, got: seq<byte>, chunk: seq<byte>, rest: seq<byte>)
    requires s.phase == Basic(got) && |got| + |chunk| <= 2
    ensures Run(Settle(s), chunk + rest) == Run(Settle(s.(phase := Basic(got + chunk))), rest)
    decreases |chunk|
  {
    hide Settle, Run;
    if chunk == [] {
      assert got + chunk == got && chunk + rest == rest;
    } else {
      var next := s.(phase := Basic(got + [chunk[0]]));
      RunBasic(next, got + [chunk[0]], chunk[1..], rest);
      BasicWaits(s, got);
      OneByte(s, chunk[0], chunk[1..] + rest);
      assert got + [chunk[0]] + chunk[1..] == got + chunk;
      assert chunk + rest == [chunk[0]] + (chunk[1..] + rest);
    }
  }

  lemma ExtendedWaits(s: Session, b0: byte, b1: byte, got: seq<byte>)
    requires s.phase == Extended(b0, b1, got) && |got| < HeaderLength(b1) - 2
    ensures Settle(s) == s && s.Reading()
  {
    hide HeaderLength;
  }

  lemma OneByte(s: Session, b: byte, rest: seq<byte>)
    requires s.Reading()
    ensures Run(s, [b] + rest) == Run(Settle(Add(s, b)), rest)
  {
    hide Settle, Add;
    assert ([b] + rest)[1..] == rest;
  }

  /** Extended header bytes may arrive in pieces. */
  lemma {:induction false} RunExtended(s: Session, b0: byte, b1: byte, got: seq<byte>, chunk: seq<byte>,
      rest: seq<byte>)
    requires s.phase == Extended(b0, b1, got) && |got| + |chunk| <= HeaderLength(b1) - 2
    ensures Run(Settle(s), chunk + rest) == Run(Settle(s.(phase := Extended(b0, b1, got + chunk))), rest)
    decreases |chunk|
  {
    hide HeaderLength, Settle, Run;
    if chunk == [] {
      assert got + chunk == got && chunk + rest == rest;
    } else {
      var next := s.(phase := Extended(b0, b1, got + [chunk[0]]));
      RunExtended(next, b0, b1, got + [chunk[0]], chunk[1..], rest);
      ExtendedWaits(s, b0, b1, got);
      OneByte(s, chunk[0], chunk[1..] + rest);
      assert got + [chunk[0]] + chunk[1..] == got + chunk;
      assert chunk + rest == [chunk[0]] + (chunk[1..] + rest);
    }
  }

  // ----- payloads -----

  lemma PrefixOfPrefix(a: seq<byte>, b: seq<byte>)
    requires U.IsUtf8Prefix(a + b)
    ensures U.IsUtf8Prefix(a)
  {
    var t :| U.IsUtf8(a + b + t);
    assert a + (b + t) == a + b + t;
  }

  lemma UnmaskedAppend(h: Header, n: nat, a: seq<byte>, b: seq<byte>)
    ensures Unmasked(h, n, a + b) == Unmasked(h, n, a) + Unmasked(h, n + |a|, b)
  {
    match h.key
    case Some(key) => MaskedAppend(a, b, key, n);
    case None =>
  }

  lemma LongerIsHopeless(payload: seq<byte>, u: seq<byte>, v: seq<byte>)
    requires !U.IsUtf8Prefix(payload + u)
    ensures !U.IsUtf8Prefix(payload + (u + v))
  {
    assert payload + (u + v) == payload + u + v;
    if U.IsUtf8Prefix(payload + u + v) {
      PrefixOfPrefix(payload + u, v);
    }
  }

  /** Payload bytes added in two pieces are added as one; if the first piece is refused, so are both. */
  lemma AddTwice(s: Session, h: Header, n: nat, a: seq<byte>, b: seq<byte>)
    requires s.Current(h.opcode).Some?
    ensures var first := AddPayload(s, h, n, a);
            var both := AddPayload(s, h, n, a + b);
            if first.phase.Failed? then both.phase == first.phase
            else first.Current(h.opcode).Some? && both.phase == AddPayload(first, h, n + |a|, b).phase
                 && (!both.phase.Failed? ==> both == AddPayload(first, h, n + |a|, b))
  {
    hide Unmasked, IsControl, U.IsUtf8Prefix;
    UnmaskedAppend(h, n, a, b);
    var p := s.Current(h.opcode).value.payload;
    var u, v := Unmasked(h, n, a), Unmasked(h, n + |a|, b);
    assert p + (u + v) == p + u + v;
    if !U.IsUtf8Prefix(p + u) {
      LongerIsHopeless(p, u, v);
    }
  }

  lemma PayloadWaits(s: Session, h: Header, n: nat)
    requires s.phase == Payload(h, n) && n < SizeOf(h)
    ensures Settle(s) == s && s.Reading()
  {
    hide SizeOf;
  }

  lemma AddsSomething(s: Session, h: Header, n: nat, a: seq<byte>)
    requires s.Current(h.opcode).Some?
    ensures var r := AddPayload(s, h, n, a);
            r.phase.Failed? || (r.phase == Payload(h, n + |a|) && r.Current(h.opcode).Some?)
  {
    hide U.IsUtf8Prefix, IsControl;
    var r := AddPayload(s, h, n, a);
    if IsControl(h.opcode) {
      assert r.phase.Failed? || r.control.Some?;
    } else {
      assert r.phase.Failed? || r.data.Some?;
    }
  }

  /** Payload bytes may arrive in pieces: one by one they lead where all at once they lead. */
  lemma {:induction false} RunPayload(s: Session, h: Header, n: nat, chunk: seq<byte>, rest: seq<byte>)
    requires s.phase == Payload(h, n) && s.Current(h.opcode).Some?
    requires chunk != [] && n + |chunk| <= SizeOf(h)
    ensures var r, added := Run(s, chunk + rest), AddPayload(s, h, n, chunk);
            if added.phase.Failed? then r.end.phase == added.phase else r == Run(Settle(added), rest)
    decreases |chunk|
  {
    hide SizeOf, Settle, Run, AddPayload;
    var more := chunk[1..];
    var first := AddPayload(s, h, n, [chunk[0]]);
    AddsSomething(s, h, n, [chunk[0]]);
    OneByte(s, chunk[0], more + rest);
    AddTwice(s, h, n, [chunk[0]], more);
    assert chunk == [chunk[0]] + more;
    assert chunk + rest == [chunk[0]] + (more + rest);
    if first.phase.Failed? {
      FailedStays(first, more + rest);
    } else if more == [] {
      assert more + rest == rest;
      assert chunk == [chunk[0]];
    } else {
      PayloadWaits(first, h, n + 1);
      RunPayload(first, h, n + 1, more, rest);
    }
  }

  lemma FailedStays(s: Session, bytes: seq<byte>)
    requires s.phase.Failed?
    ensures Settle(s) == s && Run(s, bytes) == Ran(s, bytes)
  {
  }

  // ----- frames -----

  /** A frame as its sender means it. */
  datatype Frame = Frame(h: Header, data: seq<byte>) {
    predicate Valid() { |data| == SizeOf(h) }

    function Wire(): seq<byte> { Encode(h) + Unmasked(h, 0, data) }
  }

  /** What is wrong with a frame, from its fields. */
  function FrameError(s: Session, h: Header): Option<Error> {
    if IsControl(h.opcode) && h.size > 125 then Some(ControlTooBig)
    else if h.rsv1 || h.rsv2 || h.rsv3 then Some(InvalidRsvBit)
    else if IsReserved(h.opcode) then Some(InvalidOpcode)
    else if IsControl(h.opcode) && !h.fin then Some(FragmentedControl)
    else if !IsControl(h.opcode) && (s.data.None? <==> h.opcode == CONTINUATION) then Some(InvalidContinuation)
    else if s.server && h.key.None? then Some(MaskingRequired)
    else if !s.server && h.key.Some? then Some(MaskingForbidden)
    else None
  }

  /** The rules of sections 5.1, 5.2, 5.4 and 5.5 for a frame: no extension is in use, the opcode is not
      reserved, control frames are final and small, a data frame goes on with a message exactly if one is under
      way, and exactly the frames to a server are masked. */
  lemma FrameRules(s: Session, h: Header)
    ensures FrameError(s, h) == None <==>
            && !h.rsv1 && !h.rsv2 && !h.rsv3
            && (h.opcode == 0x0 ==> s.data.Some?)
            && (h.opcode == 0x1 || h.opcode == 0x2 ==> s.data.None?)
            && h.opcode != 0x3 && h.opcode != 0x4 && h.opcode != 0x5 && h.opcode != 0x6 && h.opcode != 0x7
            && (h.opcode >= 0x8 ==> h.opcode <= 0xA && h.fin && h.size <= 125)
            && h.key.Some? == s.server
  {
    OpcodesInUse(h.opcode);
    ControlBit(h.opcode);
  }

  /** A frame's effect as a whole, its data as its sender meant it. */
  ghost function AfterFrame(s: Session, f: Frame): Session {
    match FrameError(s, f.h)
    case Some(e) => s.Fail(e)
    case None =>
      var begun := Begin(s, f.h);
      if begun.phase.Failed? then begun
      else
        var m := begun.Current(f.h.opcode).value;
        var m' := m.(payload := m.payload + f.data);
        if m.opcode == TEXT && f.data != [] && !U.IsUtf8Prefix(m'.payload) then s.Fail(InvalidUtf8)
        else FrameDone(begun.With(f.h.opcode, m'), f.h)
  }

  lemma SizesAgree(size: word)
    ensures SizeCode(size) > 125 <==> size > 125
  {
  }

  lemma OpcodeReads(h: Header)
    ensures OpcodeOf(FirstByte(h.fin, h.rsv1, h.rsv2, h.rsv3, h.opcode)) == h.opcode
  {
    FirstByteReads(h.fin, h.rsv1, h.rsv2, h.rsv3, h.opcode);
    hide FirstByte;
  }

  /** The two fixed bytes tell what is wrong with a frame. */
  lemma BasicErrorIsFrameError(s: Session, h: Header)
    ensures BasicError(s.server, s.data.None?, Encode(h)[0], Encode(h)[1]) == FrameError(s, h)
  {
    OpcodeReads(h);
    FirstByteReads(h.fin, h.rsv1, h.rsv2, h.rsv3, h.opcode);
    SecondByteReads(h.key.Some?, h.size);
    SizesAgree(h.size);
    hide FirstByte, SecondByte, OpcodeOf, BasicSize, IsMasked, SizeCode, IsReserved;
    assert !IsControl(CONTINUATION);
  }

  /** A header that was built is minimal. */
  lemma BuiltIsMinimal(h: Header)
    ensures !IsNonMinimal(Encode(h)[1], h.size)
  {
    SecondByteReads(h.key.Some?, h.size);
    SizeCodeIs(h.size);
    hide SecondByte, BasicSize, SizeCode;
  }

  /** Unmasking what was masked gives the data back. */
  lemma UnmaskedTwice(h: Header, data: seq<byte>)
    ensures Unmasked(h, 0, Unmasked(h, 0, data)) == data
  {
    match h.key
    case Some(key) => MaskingTwice(data, key, 0);
    case None =>
  }

  lemma ReadsBasic(s: Session, b0: byte, b1: byte, more: seq<byte>)
    requires s.phase == Basic([])
    ensures var r := Run(s, [b0, b1] + more);
            match BasicError(s.server, s.data.None?, b0, b1)
            case Some(e) => r.end.phase == Failed(e)
            case None => r == Run(Settle(s.(phase := Extended(b0, b1, []))), more)
  {
    hide BasicError, Run, FrameDone, Begin, HeaderLength, IsNonMinimal, Decode;
    var one, two := s.(phase := Basic([b0])), s.(phase := Basic([b0, b1]));
    assert [b0, b1] + more == [b0] + ([b1] + more);
    OneByte(s, b0, [b1] + more);
    assert [] + [b0] == [b0];
    assert Settle(one) == one;
    OneByte(one, b1, more);
    assert [b0] + [b1] == [b0, b1];
    if BasicError(s.server, s.data.None?, b0, b1).Some? {
      FailedStays(Settle(two), more);
    }
  }

  /** A header is read as what it was built from. */
  lemma ReadsHeader(s: Session, h: Header, more: seq<byte>)
    requires s.phase == Basic([])
    ensures var r := Run(s, Encode(h) + more);
            match FrameError(s, h)
            case Some(e) => r.end.phase == Failed(e)
            case None => r == Run(Settle(Begin(s, h)), more)
  {
    hide Encode, BasicError, FrameError, Run, FrameDone, Begin, HeaderLength, IsNonMinimal, Decode;
    var b := Encode(h);
    DecodesEncoding(h);
    BasicErrorIsFrameError(s, h);
    BuiltIsMinimal(h);
    var e := b[2..];
    assert b == [b[0], b[1]] + e;
    assert b + more == [b[0], b[1]] + (e + more);
    ReadsBasic(s, b[0], b[1], e + more);
    var behind := s.(phase := Extended(b[0], b[1], []));
    RunExtended(behind, b[0], b[1], [], e, more);
    assert [] + e == e;
    if FrameError(s, h).None? {
      BeginForgetsPhase(s, Extended(b[0], b[1], e), h);
    }
  }

  lemma BeginForgetsPhase(s: Session, p: Phase, h: Header)
    ensures Begin(s.(phase := p), h) == Begin(s, h)
  {
    hide SizeOf, IsControl;
  }

  /** After its header, a frame's payload is read as its sender meant it. */
  lemma ReadsPayload(s: Session, f: Frame, rest: seq<byte>)
    requires f.Valid() && s.phase == Payload(f.h, 0) && s.Current(f.h.opcode).Some?
    ensures var r := Run(Settle(s), Unmasked(f.h, 0, f.data) + rest);
            var m := s.Current(f.h.opcode).value;
            var m' := m.(payload := m.payload + f.data);
            if m.opcode == TEXT && f.data != [] && !U.IsUtf8Prefix(m'.payload) then r.end.phase == Failed(InvalidUtf8)
            else r == Run(FrameDone(s.With(f.h.opcode, m'), f.h), rest)
  {
    hide U.IsUtf8Prefix, Run, SizeOf, Unmasked, IsControl;
    var p := Unmasked(f.h, 0, f.data);
    var m := s.Current(f.h.opcode).value;
    if f.data == [] {
      assert p + rest == rest && m.payload + f.data == m.payload;
      assert Settle(s) == FrameDone(s, f.h);
      if IsControl(f.h.opcode) {
        assert s.control == Some(m);
      }
    } else {
      PayloadWaits(s, f.h, 0);
      RunPayload(s, f.h, 0, p, rest);
      UnmaskedTwice(f.h, f.data);
      var m' := m.(payload := m.payload + f.data);
      FrameDoneForgetsPhase(s.With(f.h.opcode, m'), Payload(f.h, |p|), f.h);
    }
  }

  lemma FrameDoneForgetsPhase(s: Session, p: Phase, h: Header)
    ensures FrameDone(s.(phase := p), h) == FrameDone(s, h)
  {
    hide IsControl, U.IsUtf8;
  }

  /** The bytes of a frame do what the frame means. */
  lemma ReadsFrame(s: Session, f: Frame, rest: seq<byte>)
    requires s.phase == Basic([]) && f.Valid()
    ensures var r, a := Run(s, f.Wire() + rest), AfterFrame(s, f);
            if a.phase.Failed? then r.end.phase == a.phase else r == Run(a, rest)
  {
    hide Encode, FrameError, Run, FrameDone, Begin, Unmasked, Settle, U.IsUtf8Prefix;
    var p := Unmasked(f.h, 0, f.data);
    assert f.Wire() + rest == Encode(f.h) + (p + rest);
    ReadsHeader(s, f.h, p + rest);
    if FrameError(s, f.h).None? {
      var begun := Begin(s, f.h);
      BeginIs(s, f.h);
      if begun.phase.Failed? {
        FailedStays(begun, p + rest);
      } else {
        ReadsPayload(begun, f, rest);
        var m := begun.Current(f.h.opcode).value;
        FailedStaysIf(FrameDone(begun.With(f.h.opcode, m.(payload := m.payload + f.data)), f.h), rest);
      }
    }
  }

  lemma FailedStaysIf(s: Session, bytes: seq<byte>)
    ensures s.phase.Failed? ==> Run(s, bytes) == Ran(s, bytes)
  {
  }

  lemma BeginIs(s: Session, h: Header)
    ensures var b := Begin(s, h); b.phase.Failed? || (b.phase == Payload(h, 0) && b.Current(h.opcode).Some?)
  {
    hide SizeOf;
  }

  // ----- messages -----

  /** The message that is ready. */
  function Ripe(s: Session): seq<Message>
    requires s.phase.Ready?
  {
    match if s.phase.control then s.control else s.data
    case Some(m) => [m]
    case None => []
  }

  /** The message is taken and the next frame is awaited. */
  function Taken(s: Session): Session
    requires s.phase.Ready?
  {
    if s.phase.control then s.(control := None, phase := Basic([])) else s.(data := None, phase := Basic([]))
  }

  /** The messages that bytes deliver, taken as they become ready, and where the session then stands. */
  datatype Delivered = Delivered(messages: seq<Message>, end: Session)

  ghost function Deliver(s: Session, bytes: seq<byte>): Delivered
    decreases |bytes|
  {
    var r := Run(s, bytes);
    if r.end.phase.Ready? && |r.rest| < |bytes| then
      var d := Deliver(Taken(r.end), r.rest);
      Delivered(Ripe(r.end) + d.messages, d.end)
    else Delivered([], r.end)
  }

  lemma NothingRead(s: Session)
    ensures Run(s, []) == Ran(s, [])
  {
  }

  /** Reading makes progress, so every ready message is delivered. */
  lemma DeliverIs(s: Session, bytes: seq<byte>)
    requires s.Reading()
    ensures var r := Run(s, bytes);
            && (r.end.phase.Ready? ==> |r.rest| < |bytes|)
            && Deliver(s, bytes) == if r.end.phase.Ready? then
                                      var d := Deliver(Taken(r.end), r.rest); Delivered(Ripe(r.end) + d.messages, d.end)
                                    else Delivered([], r.end)
  {
    RestShrinks(s, bytes);
    NothingRead(s);
    hide Run, Ripe, Taken;
  }

  lemma DeliverByRun(s: Session, x: seq<byte>, t: Session, y: seq<byte>)
    requires Run(s, x) == Run(t, y) && s.Reading() && t.Reading()
    ensures Deliver(s, x) == Deliver(t, y)
  {
    hide Run, Deliver, Ripe, Taken;
    DeliverIs(s, x);
    DeliverIs(t, y);
  }

  /** The bytes of a connection may arrive in any pieces: the messages are the same, in the same order. */
  lemma {:induction false} DeliverAppend(s: Session, a: seq<byte>, b: seq<byte>)
    requires s.Reading()
    ensures var d := Deliver(s, a);
            if d.end.phase.Failed? then Deliver(s, a + b) == d
            else d.end.Reading() && Deliver(s, a + b) == var e := Deliver(d.end, b);
                    Delivered(d.messages + e.messages, e.end)
    decreases |a|
  {
    hide Run, Deliver, Ripe;
    var r := Run(s, a);
    RunAppend(s, a, b);
    DeliverIs(s, a);
    DeliverIs(s, a + b);
    if r.end.Reading() {
      DeliverByRun(s, a + b, r.end, b);
      assert [] + Deliver(r.end, b).messages == Deliver(r.end, b).messages;
    } else if r.end.phase.Ready? {
      var t := Taken(r.end);
      DeliverAppend(t, r.rest, b);
      var d := Deliver(t, r.rest);
      var e := Deliver(d.end, b);
      assert Ripe(r.end) + (d.messages + e.messages) == Ripe(r.end) + d.messages + e.messages;
    }
  }

  function Wires(fs: seq<Frame>): seq<byte> {
    if fs == [] then [] else fs[0].Wire() + Wires(fs[1..])
  }

  /** The messages that frames deliver. */
  ghost function DeliverFrames(s: Session, fs: seq<Frame>): Delivered
    decreases |fs|
  {
    if fs == [] then Delivered([], s)
    else
      var a := AfterFrame(s, fs[0]);
      if a.phase.Failed? then Delivered([], a)
      else if a.phase.Ready? then
        var d := DeliverFrames(Taken(a), fs[1..]);
        Delivered(Ripe(a) + d.messages, d.end)
      else DeliverFrames(a, fs[1..])
  }

  predicate SameEnd(s: Session, t: Session) {
    if t.phase.Failed? then s.phase == t.phase else s == t
  }

  lemma AfterFramePhase(s: Session, f: Frame)
    ensures var p := AfterFrame(s, f).phase; p == Basic([]) || p.Ready? || p.Failed?
  {
    hide FrameError, Begin, U.IsUtf8, U.IsUtf8Prefix;
    BeginIs(s, f.h);
  }

  /** The bytes of frames deliver the messages that the frames deliver. */
  lemma {:induction false} DeliversFrames(s: Session, fs: seq<Frame>)
    requires s.phase == Basic([]) && forall k | 0 <= k < |fs| :: fs[k].Valid()
    ensures var d, e := Deliver(s, Wires(fs)), DeliverFrames(s, fs);
            d.messages == e.messages && SameEnd(d.end, e.end)
    decreases |fs|
  {
    hide AfterFrame, Run, Encode;
    if fs == [] {
      NothingRead(s);
    } else {
      var f, rest := fs[0], Wires(fs[1..]);
      var a := AfterFrame(s, f);
      ReadsFrame(s, f, rest);
      AfterFramePhase(s, f);
      LengthIsHeaderLength(f.h);
      assert |f.Wire() + rest| > |rest|;
      if a.phase.Ready? {
        ReadyStays(a, rest);
        DeliversFrames(Taken(a), fs[1..]);
      } else if a.phase == Basic([]) {
        DeliverByRun(s, f.Wire() + rest, a, rest);
        DeliversFrames(a, fs[1..]);
      }
    }
  }

  lemma ReadyStays(s: Session, bytes: seq<byte>)
    requires s.phase.Ready?
    ensures Run(s, bytes) == Ran(s, bytes)
  {
  }
}
