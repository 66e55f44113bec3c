/** Whole byte streams: that a stream that does not fail is frames, and how much a session buffers. */
module Streams {
  import opened Options
  import opened Words
  import opened FrameHeader
  import opened Session
  import U = Utf8Spec

  // ----- a stream is frames -----

  /** A part of a stream that ends inside a frame, and the phase it leaves. */
  ghost predicate IsBeginning(part: seq<byte>, phase: Phase) {
    match phase
    case Basic(got) => part == got && |got| < 2
    case Extended(b0, b1, got) => part == [b0, b1] + got && |got| < HeaderLength(b1) - 2
    case Payload(h, n) => exists data :: |data| == n < SizeOf(h) && part == Encode(h) + Unmasked(h, 0, data)
    case _ => false
  }

  lemma AnyUnmasked(h: Header, payload: seq<byte>) returns (data: seq<byte>)
    ensures |data| == |payload| && Unmasked(h, 0, data) == payload
  {
    data := Unmasked(h, 0, payload);
    UnmaskedTwice(h, payload);
  }

  lemma FullHeader(s: Session, b0: byte, b1: byte, e: seq<byte>, rest: seq<byte>) returns (h: Header)
    requires s.phase == Extended(b0, b1, e) && |e| == HeaderLength(b1) - 2
    requires !Run(Settle(s), rest).end.phase.Failed?
    ensures Encode(h) == [b0, b1] + e && !Begin(s, h).phase.Failed? && Settle(s) == Settle(Begin(s, h))
  {
    hide HeaderLength, Encode, Begin, FrameDone, IsNonMinimal, PayloadSize, MaskingKey;
    var b := [b0, b1] + e;
    assert |b| == HeaderLength(b[1]);
    h := Decode(b);
    hide Decode;
    if IsNonMinimal(b1, h.size) {
      FailedStays(Settle(s), rest);
    } else {
      EncodesDecoding(b);
      if Begin(s, h).phase.Failed? {
        FailedStays(Begin(s, h), rest);
      }
    }
  }

  /** Payload bytes that do not fill the frame leave it unfinished. */
  lemma PartialPayload(s: Session, h: Header, payload: seq<byte>)
    requires s.phase == Payload(h, 0) && s.Current(h.opcode).Some? && |payload| < SizeOf(h)
    ensures var p := Run(Settle(s), payload).end.phase; p.Failed? || p == Payload(h, |payload|)
  {
    hide SizeOf, Settle, Run, AddPayload;
    PayloadWaits(s, h, 0);
    if payload == [] {
      NothingRead(s);
    } else {
      RunPayload(s, h, 0, payload, []);
      assert payload + [] == payload;
      AddsSomething(s, h, 0, payload);
      var added := AddPayload(s, h, 0, payload);
      if !added.phase.Failed? {
        PayloadWaits(added, h, |payload|);
        NothingRead(added);
      }
    }
  }

  lemma WithHeader(s: Session, b0: byte, b1: byte, e: seq<byte>, p: seq<byte>)
      returns (f: Option<Frame>, rest: seq<byte>)
    requires s.phase == Extended(b0, b1, e) && |e| == HeaderLength(b1) - 2
    requires !Run(Settle(s), p).end.phase.Failed?
    ensures match f
            case None => IsBeginning([b0, b1] + e + p, Run(Settle(s), p).end.phase)
            case Some(frame) => frame.Valid() && [b0, b1] + e + p == frame.Wire() + rest
  {
    hide Run, Settle, Begin, Encode, HeaderLength, Unmasked, SizeOf;
    var h := FullHeader(s, b0, b1, e, p);
    var begun := Begin(s, h);
    BeginIs(s, h);
    if |p| < SizeOf(h) {
      f, rest := None, [];
      PartialPayload(begun, h, p);
      var data := AnyUnmasked(h, p);
    } else {
      var data := AnyUnmasked(h, p[..SizeOf(h)]);
      f, rest := Some(Frame(h, data)), p[SizeOf(h)..];
      assert p == p[..SizeOf(h)] + rest;
      assert Encode(h) + (p[..SizeOf(h)] + rest) == Encode(h) + p[..SizeOf(h)] + rest;
    }
  }

  /** A stream that does not fail at once is a frame and more, or the beginning of one. */
  lemma FirstFrame(s: Session, bytes: seq<byte>) returns (f: Option<Frame>, rest: seq<byte>)
    requires s.phase == Basic([]) && !Run(s, bytes).end.phase.Failed?
    ensures match f
            case None => IsBeginning(bytes, Run(s, bytes).end.phase)
            case Some(frame) => frame.Valid() && bytes == frame.Wire() + rest
  {
    hide Run, Settle, Begin, Encode, Decode, HeaderLength, BasicError, Unmasked, SizeOf;
    f, rest := None, [];
    if |bytes| < 2 {
      assert bytes + [] == bytes && [] + bytes == bytes;
      RunBasic(s, [], bytes, []);
      BasicWaits(s, []);
      BasicWaits(s.(phase := Basic(bytes)), bytes);
      NothingRead(s.(phase := Basic(bytes)));
    } else {
      var b0, b1, more := bytes[0], bytes[1], bytes[2..];
      assert bytes == [b0, b1] + more;
      ReadsBasic(s, b0, b1, more);
      var behind := s.(phase := Extended(b0, b1, []));
      var length := HeaderLength(b1) - 2;
      if |more| < length {
        assert more + [] == more && [] + more == more;
        RunExtended(behind, b0, b1, [], more, []);
        ExtendedWaits(s.(phase := Extended(b0, b1, more)), b0, b1, more);
        NothingRead(s.(phase := Extended(b0, b1, more)));
      } else {
        assert more == more[..length] + more[length..];
        assert [] + more[..length] == more[..length];
        assert bytes == [b0, b1] + more[..length] + more[length..];
        RunExtended(behind, b0, b1, [], more[..length], more[length..]);
        f, rest := WithHeader(s.(phase := Extended(b0, b1, more[..length])), b0, b1, more[..length], more[length..]);
      }
    }
  }

  /** Every stream of bytes that does not fail is the wires of valid frames and then the beginning of one
      more, and it delivers the messages of the frames. */
  lemma {:induction false} StreamIsFrames(s: Session, bytes: seq<byte>) returns (fs: seq<Frame>, part: seq<byte>)
    requires s.phase == Basic([]) && !Deliver(s, bytes).end.phase.Failed?
    ensures (forall k | 0 <= k < |fs| :: fs[k].Valid()) && bytes == Wires(fs) + part
    ensures var d, e := Deliver(s, bytes), DeliverFrames(s, fs);
            && d.messages == e.messages && e.end.phase == Basic([])
            && Run(e.end, part) == Ran(d.end, []) && IsBeginning(part, d.end.phase)
    decreases |bytes|
  {
    hide Run, Deliver, AfterFrame, Encode, Unmasked, HeaderLength, SizeOf, Ripe;
    DeliverIs(s, bytes);
    var f, rest := FirstFrame(s, bytes);
    match f
    case None =>
      fs, part := [], bytes;
      assert [] + bytes == bytes;
      RunAppend(s, bytes, []);
    case Some(frame) =>
      var a := AfterFrame(s, frame);
      ReadsFrame(s, frame, rest);
      AfterFramePhase(s, frame);
      FailedOrNot(a, rest);
      LengthIsHeaderLength(frame.h);
      assert |frame.Wire()| > 0;
      var next := if a.phase.Ready? then Taken(a) else a;
      if a.phase.Ready? {
        ReadyStays(a, rest);
      } else {
        DeliverByRun(s, bytes, a, rest);
      }
      fs, part := StreamIsFrames(next, rest);
      FirstOfFrames(s, frame, fs);
      assert frame.Wire() + (Wires(fs) + part) == frame.Wire() + Wires(fs) + part;
      fs := [frame] + fs;
  }

  lemma FailedOrNot(a: Session, rest: seq<byte>)
    ensures a.phase.Failed? ==> Run(a, rest).end == a
  {
  }

  lemma FirstOfFrames(s: Session, f: Frame, fs: seq<Frame>)
    ensures Wires([f] + fs) == f.Wire() + Wires(fs)
    ensures var a := AfterFrame(s, f);
            DeliverFrames(s, [f] + fs) == if a.phase.Failed? then Delivered([], a)
                                          else if a.phase.Ready? then
                                            var d := DeliverFrames(Taken(a), fs);
                                            Delivered(Ripe(a) + d.messages, d.end)
                                          else DeliverFrames(a, fs)
  {
    hide AfterFrame, Ripe, Taken;
    assert ([f] + fs)[1..] == fs;
  }

  // ----- how much is buffered -----

  const WIDTH := 0x1_0000_0000_0000_0000

  /** The messages, with what the frame under way will add, are within their limits. */
  ghost predicate Fits(s: Session) {
    && (s.data.Some? ==> |s.data.value.payload| <= s.maxSize)
    && (s.control.Some? ==> |s.control.value.payload| <= 125)
    && match s.phase
       case Extended(b0, b1, _) => IsControl(OpcodeOf(b0)) ==> BasicSize(b1) <= 125
       case Payload(h, n) =>
         && n < SizeOf(h) && s.Current(h.opcode).Some?
         && |s.Current(h.opcode).value.payload| + SizeOf(h) - n <= if IsControl(h.opcode) then 125 else s.maxSize
       case _ => true
  }

  /** More bytes are needed before anything happens. */
  predicate Waits(s: Session) {
    match s.phase
    case Basic(got) => |got| < 2
    case Extended(_, b1, got) => |got| < HeaderLength(b1) - 2
    case Payload(h, n) => n < SizeOf(h)
    case _ => true
  }

  /** The header of the frame that begins when a session settles. */
  function Begun(s: Session): Option<Header> {
    match s.phase
    case Basic(got) =>
      if |got| == 2 && HeaderLength(got[1]) == 2 && BasicError(s.server, s.data.None?, got[0], got[1]).None? then
        Some(Decode(got))
      else None
    case Extended(b0, b1, got) =>
      if |got| != HeaderLength(b1) - 2 then None
      else
        var h := Decode([b0, b1] + got);
        if IsNonMinimal(b1, h.size) then None else Some(h)
    case _ => None
  }

  /** A continuation frame so long that the sum in the size check wraps around and passes. */
  predicate Wraps(s: Session, h: Header) {
    && !IsControl(h.opcode) && s.data.Some?
    && |s.data.value.payload| + SizeOf(h) >= WIDTH
    && (|s.data.value.payload| + SizeOf(h)) % WIDTH <= s.maxSize
  }

  lemma SmallSize(h: Header)
    requires h.size <= 125
    ensures SizeOf(h) <= 125
  {
  }

  lemma NoWrap(n: nat)
    requires n < WIDTH
    ensures n % WIDTH == n
  {
  }

  /** The messages are within their limits. */
  predicate MessagesFit(s: Session) {
    (s.data.Some? ==> |s.data.value.payload| <= s.maxSize) && (s.control.Some? ==> |s.control.value.payload| <= 125)
  }

  lemma FrameDoneFits(s: Session, h: Header)
    requires MessagesFit(s)
    ensures Fits(FrameDone(s, h)) && Waits(FrameDone(s, h)) && MessagesFit(FrameDone(s, h))
  {
    hide U.IsUtf8, IsControl;
  }

  lemma BeginsControl(s: Session, h: Header)
    requires MessagesFit(s) && IsControl(h.opcode) && h.size <= 125
    ensures var b := Begin(s, h); b.phase == Payload(h, 0) && MessagesFit(b) && (SizeOf(h) > 0 ==> Fits(b))
  {
    SmallSize(h);
    hide SizeOf, IsControl;
  }

  lemma BeginsMessage(s: Session, h: Header)
    requires MessagesFit(s) && !IsControl(h.opcode) && s.data.None?
    ensures var b := Begin(s, h);
            && MessagesFit(b) && (b.phase.Failed? || b.phase == Payload(h, 0))
            && (b.phase.Failed? || SizeOf(h) > 0 ==> Fits(b))
  {
    hide SizeOf, IsControl;
  }

  lemma ContinuesMessage(s: Session, h: Header)
    requires MessagesFit(s) && !IsControl(h.opcode) && s.data.Some? && s.maxSize < WIDTH
    ensures var b := Begin(s, h);
            && MessagesFit(b) && (b.phase.Failed? || b.phase == Payload(h, 0))
            && (Wraps(s, h) ==> SizeOf(h) > 0 && b.phase == Payload(h, 0) && !Fits(b))
            && (!Wraps(s, h) && (b.phase.Failed? || SizeOf(h) > 0) ==> Fits(b))
  {
    hide SizeOf, IsControl;
    var sum := |s.data.value.payload| + SizeOf(h);
    if sum < WIDTH {
      NoWrap(sum);
    }
  }

  lemma BeginsData(s: Session, h: Header)
    requires MessagesFit(s) && !IsControl(h.opcode) && s.maxSize < WIDTH
    ensures var b := Begin(s, h);
            && MessagesFit(b) && (b.phase.Failed? || b.phase == Payload(h, 0))
            && (Wraps(s, h) ==> SizeOf(h) > 0 && b.phase == Payload(h, 0) && !Fits(b))
            && (!Wraps(s, h) && (b.phase.Failed? || SizeOf(h) > 0) ==> Fits(b))
  {
    if s.data.Some? {
      ContinuesMessage(s, h);
    } else {
      BeginsMessage(s, h);
    }
    hide SizeOf, IsControl, Begin, Fits, MessagesFit;
  }

  /** A frame that begins fits exactly if its size check did not wrap around. */
  lemma BeginFits(s: Session, h: Header)
    requires s.maxSize < WIDTH && MessagesFit(s) && (IsControl(h.opcode) ==> h.size <= 125)
    ensures Fits(Settle(Begin(s, h))) <==> !Wraps(s, h)
    ensures Waits(Settle(Begin(s, h))) && MessagesFit(Settle(Begin(s, h)))
  {
    var b := Begin(s, h);
    if IsControl(h.opcode) {
      BeginsControl(s, h);
    } else {
      BeginsData(s, h);
    }
    hide SizeOf, IsControl, Begin, FrameDone, Fits;
    if b.phase.Payload? && SizeOf(h) == 0 {
      FrameDoneFits(b, h);
    }
  }

  lemma SizeAndOpcode(b0: byte, b1: byte, e: seq<byte>)
    requires |e| == HeaderLength(b1) - 2
    ensures |[b0, b1] + e| == HeaderLength(([b0, b1] + e)[1])
    ensures var h := Decode([b0, b1] + e); h.opcode == OpcodeOf(b0) && (BasicSize(b1) <= 125 ==> h.size <= 125)
  {
    var b := [b0, b1] + e;
    assert b[2..] == e;
    BasicSizeFits(b1);
    hide MaskingKey, IsMasked, HeaderLength, Size16, Size64, BasicSize, OpcodeOf;
  }

  lemma BasicSizeFits(b1: byte)
    ensures BasicSize(b1) <= 125 ==> BasicSize(b1) as word <= 125
    ensures HeaderLength(b1) == 2 ==> BasicSize(b1) != 126 && BasicSize(b1) != 127
  {
  }

  lemma ControlsAreSmall(server: bool, newMessage: bool, b0: byte, b1: byte)
    requires BasicError(server, newMessage, b0, b1).None?
    ensures IsControl(OpcodeOf(b0)) ==> BasicSize(b1) <= 125
  {
    hide OpcodeOf, IsControl, IsReserved;
  }

  lemma WrapsForgetsPhase(s: Session, p: Phase, h: Header)
    ensures Wraps(s.(phase := p), h) == Wraps(s, h)
  {
    hide SizeOf;
  }

  /** Settling keeps within the limits exactly if no frame begins whose size check wraps around. */
  lemma SettleFits(s: Session)
    requires s.maxSize < WIDTH && MessagesFit(s)
    requires match s.phase
             case Basic(got) => |got| <= 2
             case Extended(b0, b1, got) =>
               |got| <= HeaderLength(b1) - 2 && (IsControl(OpcodeOf(b0)) ==> BasicSize(b1) <= 125)
             case Payload(h, n) => n == SizeOf(h) || Fits(s)
             case _ => true
    ensures Fits(Settle(s)) <==> Begun(s).None? || !Wraps(s, Begun(s).value)
    ensures Waits(Settle(s)) && MessagesFit(Settle(s))
    decreases if s.phase.Basic? then 1 else 0
  {
    hide Begin, FrameDone, BasicSize, Decode, SizeOf, IsControl, IsReserved, OpcodeOf, Wraps, HeaderLength;
    match s.phase
    case Basic(got) =>
      if |got| == 2 && BasicError(s.server, s.data.None?, got[0], got[1]).None? {
        ControlsAreSmall(s.server, s.data.None?, got[0], got[1]);
        hide BasicError;
        var t := s.(phase := Extended(got[0], got[1], []));
        SettleFits(t);
        BasicSizeFits(got[1]);
        assert [got[0], got[1]] + [] == got;
        if HeaderLength(got[1]) == 2 {
          WrapsForgetsPhase(s, t.phase, Decode(got));
        }
      }
    case Extended(b0, b1, got) =>
      if |got| == HeaderLength(b1) - 2 {
        var h := Decode([b0, b1] + got);
        SizeAndOpcode(b0, b1, got);
        if !IsNonMinimal(b1, h.size) {
          BeginFits(s, h);
        }
      }
    case Payload(h, n) =>
      if n == SizeOf(h) {
        FrameDoneFits(s, h);
      }
    case _ =>
  }

  lemma AddFits(s: Session, b: byte)
    requires Fits(s) && Waits(s) && s.Reading()
    ensures var t := Add(s, b);
            && MessagesFit(t) && t.maxSize == s.maxSize && t.server == s.server
            && match t.phase
               case Basic(got) => |got| <= 2
               case Extended(b0, b1, got) =>
                 |got| <= HeaderLength(b1) - 2 && (IsControl(OpcodeOf(b0)) ==> BasicSize(b1) <= 125)
               case Payload(h, n) => n == SizeOf(h) || Fits(t)
               case _ => true
  {
    hide SizeOf, U.IsUtf8Prefix, BasicSize, OpcodeOf, HeaderLength, Unmasked;
  }

  /** What a session becomes on a byte, a ready message being taken at once. */
  ghost function Next(s: Session, b: byte): Session {
    var t := Settle(Add(s, b));
    if t.phase.Ready? then Taken(t) else t
  }

  lemma TakenFits(s: Session)
    requires s.phase.Ready? && MessagesFit(s)
    ensures Fits(s) && Fits(Taken(s)) && Waits(Taken(s)) && Taken(s).maxSize == s.maxSize
  {
  }

  lemma NextFits(s: Session, b: byte)
    requires Fits(s) && Waits(s) && s.Reading() && s.maxSize < WIDTH
    ensures var begun := Begun(Add(s, b));
            Fits(Next(s, b)) <==> begun.None? || !Wraps(Add(s, b), begun.value)
    ensures Waits(Next(s, b)) && Next(s, b).maxSize == s.maxSize
  {
    AddFits(s, b);
    SettleFits(Add(s, b));
    SettleKeepsLimit(Add(s, b));
    hide Settle, Add, Begun, Wraps, Fits, Waits, MessagesFit;
    var t := Settle(Add(s, b));
    if t.phase.Ready? {
      TakenFits(t);
    }
  }

  lemma SettleKeepsLimit(s: Session)
    ensures Settle(s).maxSize == s.maxSize
    decreases if s.phase.Basic? then 1 else 0
  {
    hide BasicError, HeaderLength, IsNonMinimal, Decode, SizeOf, IsControl, U.IsUtf8;
    if s.phase.Basic? && |s.phase.got| >= 2 {
      SettleKeepsLimit(s.(phase := Extended(s.phase.got[0], s.phase.got[1], [])));
    }
  }

  /** Along a stream no frame begins whose size check wraps around. */
  ghost predicate WrapFree(s: Session, bytes: seq<byte>)
    decreases |bytes|
  {
    bytes == [] || !s.Reading()
    || ((Begun(Add(s, bytes[0])).Some? ==> !Wraps(Add(s, bytes[0]), Begun(Add(s, bytes[0])).value))
        && WrapFree(Next(s, bytes[0]), bytes[1..]))
  }

  lemma DeliverNext(s: Session, bytes: seq<byte>)
    requires s.Reading() && bytes != []
    ensures Deliver(s, bytes).end == if Next(s, bytes[0]).Reading() then Deliver(Next(s, bytes[0]), bytes[1..]).end
                                     else Next(s, bytes[0])
  {
    var one := [bytes[0]];
    assert bytes == one + bytes[1..];
    DeliverAppend(s, one, bytes[1..]);
    DeliverOne(s, bytes[0]);
    hide Deliver, Settle, Add, Taken;
  }

  lemma DeliverOne(s: Session, b: byte)
    requires s.Reading()
    ensures Deliver(s, [b]).end == Next(s, b)
    ensures var t := Settle(Add(s, b)); Deliver(s, [b]).messages == if t.phase.Ready? then Ripe(t) else []
  {
    var t := Settle(Add(s, b));
    hide Settle, Add, Ripe;
    OneByte(s, b, []);
    NothingRead(t);
    assert [b] + [] == [b];
    DeliverIs(s, [b]);
    if t.phase.Ready? {
      NothingRead(Taken(t));
    }
  }

  /** The session fits at every point of a stream. */
  ghost predicate AlwaysFits(s: Session, bytes: seq<byte>) {
    forall k | 0 <= k <= |bytes| :: Fits(Deliver(s, bytes[..k]).end)
  }

  lemma PointsOfStream(s: Session, bytes: seq<byte>, k: nat)
    requires s.Reading() && 0 < k <= |bytes|
    ensures var t, rest := Next(s, bytes[0]), bytes[1..];
            Deliver(s, bytes[..k]).end == if t.Reading() then Deliver(t, rest[..k - 1]).end else t
  {
    hide Deliver, Next;
    DeliverNext(s, bytes[..k]);
    assert bytes[..k][1..] == bytes[1..][..k - 1];
  }

  lemma AlwaysFitsNext(s: Session, bytes: seq<byte>)
    requires s.Reading() && bytes != [] && Fits(s)
    ensures var t := Next(s, bytes[0]);
            AlwaysFits(s, bytes) <==> Fits(t) && (t.Reading() ==> AlwaysFits(t, bytes[1..]))
  {
    hide Deliver, Fits, Next;
    var t, rest := Next(s, bytes[0]), bytes[1..];
    DeliverNothing(s);
    DeliverNothing(t);
    assert bytes[..0] == [] && rest[..0] == [];
    forall k | 0 < k <= |bytes|
      ensures Deliver(s, bytes[..k]).end == if t.Reading() then Deliver(t, rest[..k - 1]).end else t
    {
      PointsOfStream(s, bytes, k);
    }
    if AlwaysFits(s, bytes) {
      assert Fits(Deliver(s, bytes[..1]).end);
      if t.Reading() {
        forall j | 0 <= j <= |rest| ensures Fits(Deliver(t, rest[..j]).end) {
          assert Fits(Deliver(s, bytes[..j + 1]).end);
        }
      }
    }
    if Fits(t) && (t.Reading() ==> AlwaysFits(t, rest)) {
      forall k | 0 <= k <= |bytes| ensures Fits(Deliver(s, bytes[..k]).end) {
        if k > 0 && t.Reading() {
          assert Fits(Deliver(t, rest[..k - 1]).end);
        }
      }
    }
  }

  /** At every point of a stream the buffered messages, with what the frame under way will add, are within
      their limits (the size limit for data, 125 bytes for control messages), if and only if along it no
      continuation frame is so long that the size check wraps around. */
  lemma {:induction false} BufferedFits(s: Session, bytes: seq<byte>)
    requires Fits(s) && Waits(s) && s.Reading() && s.maxSize < WIDTH
    ensures AlwaysFits(s, bytes) <==> WrapFree(s, bytes)
    decreases |bytes|
  {
    hide Deliver, Settle, Add, Fits, Waits, Begun, Wraps, Next;
    if bytes == [] {
      DeliverNothing(s);
      assert bytes[..0] == [];
    } else {
      var t := Next(s, bytes[0]);
      NextFits(s, bytes[0]);
      AlwaysFitsNext(s, bytes);
      hide AlwaysFits;
      if t.Reading() && Fits(t) {
        BufferedFits(t, bytes[1..]);
      }
    }
  }

  lemma DeliverNothing(s: Session)
    ensures Deliver(s, []) == Delivered([], s)
  {
  }

  /** A session that has read nothing fits. */
  lemma StartFits(server: bool, maxSize: nat)
    ensures var s := Start(server, maxSize); Fits(s) && Waits(s) && s.Reading() && Kinds(s)
  {
  }

  /** With one byte buffered and a limit of one byte, a continuation frame of 2^64 - 1 bytes passes,
      and its first byte makes the buffer longer than the limit. */
  lemma HugeFramePasses(b: byte)
    ensures var s := Start(false, 1).(data := Some(Message(2, [0])));
            var h := Header(true, false, false, false, CONTINUATION, 0xFFFF_FFFF_FFFF_FFFF, None);
            Fits(s) && Begin(s, h).phase == Payload(h, 0) && !Fits(Begin(s, h))
            && Add(Begin(s, h), b).data == Some(Message(2, [0, b]))
  {
    var h := Header(true, false, false, false, CONTINUATION, 0xFFFF_FFFF_FFFF_FFFF, None);
    assert SizeOf(h) == WIDTH - 1;
    assert WIDTH % WIDTH == 0;
    var s := Start(false, 1).(data := Some(Message(2, [0])));
    hide SizeOf;
    assert Begin(s, h).data == s.data;
    assert Begin(s, h).phase == Payload(h, 0);
    assert [0] + [b] == [0, b];
  }

  // ----- how much is delivered -----

  /** The message of each slot is of its kind. */
  predicate Kinds(s: Session) {
    && (s.data.Some? ==> !IsControl(s.data.value.opcode))
    && (s.control.Some? ==> IsControl(s.control.value.opcode))
  }

  lemma SettleKeepsKinds(s: Session)
    requires Kinds(s)
    ensures Kinds(Settle(s)) && Settle(s).maxSize == s.maxSize
    decreases match s.phase case Basic(_) => 2 case Extended(_, _, _) => 1 case _ => 0
  {
    hide BasicError, HeaderLength, IsNonMinimal, Decode, SizeOf, IsControl, U.IsUtf8;
    match s.phase
    case Basic(got) =>
      if |got| >= 2 {
        SettleKeepsKinds(s.(phase := Extended(got[0], got[1], [])));
      }
    case Extended(b0, b1, got) =>
      if |got| == HeaderLength(b1) - 2 {
        SettleKeepsKinds(Begin(s, Decode([b0, b1] + got)));
      }
    case _ =>
  }

  lemma AddKeepsKinds(s: Session, b: byte)
    requires Kinds(s)
    ensures Kinds(Add(s, b))
  {
    hide U.IsUtf8Prefix, IsControl, Unmasked;
  }

  ghost predicate AllWithin(maxSize: nat, messages: seq<Message>) {
    forall m | m in messages :: |m.payload| <= if IsControl(m.opcode) then 125 else maxSize
  }

  lemma RipeIsWithin(s: Session)
    requires s.phase.Ready? && MessagesFit(s) && Kinds(s)
    ensures AllWithin(s.maxSize, Ripe(s)) && Kinds(Taken(s))
  {
  }

  /** Along a stream on which no size check wraps around, every message that is delivered is within its
      limit. */
  lemma {:induction false} DeliveredIsWithin(s: Session, bytes: seq<byte>)
    requires Fits(s) && Waits(s) && s.Reading() && Kinds(s) && s.maxSize < WIDTH && WrapFree(s, bytes)
    ensures forall m | m in Deliver(s, bytes).messages ::
              |m.payload| <= if IsControl(m.opcode) then 125 else s.maxSize
    decreases |bytes|
  {
    hide Deliver, Settle, Add, Fits, Waits, Kinds, Begun, Wraps, Ripe, Taken, MessagesFit;
    if bytes == [] {
      DeliverNothing(s);
    } else {
      var b, rest := bytes[0], bytes[1..];
      var t := Settle(Add(s, b));
      AddFits(s, b);
      SettleFits(Add(s, b));
      AddKeepsKinds(s, b);
      SettleKeepsKinds(Add(s, b));
      NextFits(s, b);
      DeliverOne(s, b);
      assert bytes == [b] + rest;
      DeliverAppend(s, [b], rest);
      if t.phase.Ready? {
        RipeIsWithin(t);
      }
      if Next(s, b).Reading() {
        DeliveredIsWithin(Next(s, b), rest);
      }
    }
  }

  /** The top bit of a size in eight bytes, which section 5.2 of RFC 6455 wants to be 0, is not checked: the first
      frame of a message may have it, if the limit allows such a size. */
  lemma TopBitNotChecked(server: bool, maxSize: nat, h: Header)
    requires h.size >= TOP_BIT && !IsControl(h.opcode) && FrameError(Start(server, maxSize), h).None?
    ensures !HasTopBitClear(Encode(h))
    ensures var phase := Run(Start(server, maxSize), Encode(h)).end.phase;
            phase == if SizeOf(h) <= maxSize then Payload(h, 0) else Failed(MessageTooBig)
  {
    hide Encode, Run, FrameError;
    var s := Start(server, maxSize);
    EncodedTopBit(h);
    assert Encode(h) + [] == Encode(h);
    ReadsHeader(s, h, []);
    NothingRead(Settle(Begin(s, h)));
  }
}
