/** The examples of section 5.7 of RFC 6455, byte for byte, and bytes that break its rules. */
module WireVectors {
  import opened Options
  import opened Words
  import opened Masking
  import opened FrameHeader
  import opened Session
  import opened Messages
  import U = Utf8Spec
  import S = Sequences

  const HELLO: seq<byte> := [0x48, 0x65, 0x6c, 0x6c, 0x6f]
  const KEY: Key := [0x37, 0xfa, 0x21, 0x3d]

  function HeaderOf(fin: bool, opcode: Opcode, size: word, key: Option<Key>): Header {
    Header(fin, false, false, false, opcode, size, key)
  }

  // ----- headers -----

  lemma SmallHeaders()
    ensures Encode(HeaderOf(true, 0x1, 5, None)) == [0x81, 0x05]
    ensures Encode(HeaderOf(false, 0x1, 3, None)) == [0x01, 0x03]
    ensures Encode(HeaderOf(true, 0x0, 2, None)) == [0x80, 0x02]
    ensures Encode(HeaderOf(true, 0x9, 5, None)) == [0x89, 0x05]
    ensures Encode(HeaderOf(true, 0x8, 0, None)) == [0x88, 0x00]
    ensures Encode(HeaderOf(false, 0x1, 1, None)) == [0x01, 0x01]
  {
  }

  lemma MaskedHeaders()
    ensures Encode(HeaderOf(true, 0x1, 5, Some(KEY))) == [0x81, 0x85, 0x37, 0xfa, 0x21, 0x3d]
    ensures Encode(HeaderOf(true, 0xA, 5, Some(KEY))) == [0x8a, 0x85, 0x37, 0xfa, 0x21, 0x3d]
  {
  }

  lemma LargeHeaders()
    ensures Encode(HeaderOf(true, 0x2, 256, None)) == [0x82, 0x7E, 0x01, 0x00]
    ensures Encode(HeaderOf(true, 0x2, 0x10000, None)) == [0x82, 0x7F, 0x00, 0x00, 0x00, 0x00, 0x00, 0x01, 0x00, 0x00]
  {
  }

  lemma HelloMasked()
    ensures Masked(HELLO, KEY, 0) == [0x7f, 0x9f, 0x4d, 0x51, 0x58]
  {
    assert Xor(0x48, 0x37) == 0x7f && Xor(0x65, 0xfa) == 0x9f && Xor(0x6c, 0x21) == 0x4d;
    assert Xor(0x6c, 0x3d) == 0x51 && Xor(0x6f, 0x37) == 0x58;
    hide Xor;
  }

  // ----- messages -----

  lemma {:induction false} AsciiIsUtf8(s: seq<byte>)
    requires forall k | 0 <= k < |s| :: s[k] < 0x80
    ensures U.IsUtf8(s)
  {
    var cs := seq(|s|, k requires 0 <= k < |s| => [s[k]]);
    assert forall i | 0 <= i < |cs| :: U.IsChar(cs[i]);
    FlattenSingles(s, cs);
  }

  lemma {:induction false} FlattenSingles(s: seq<byte>, cs: seq<seq<byte>>)
    requires |cs| == |s| && forall k | 0 <= k < |s| :: cs[k] == [s[k]]
    ensures S.Flatten(cs) == s
  {
    if s != [] {
      FlattenSingles(s[1..], cs[1..]);
      assert s == [s[0]] + s[1..];
    }
  }

  /** The bytes of one message in one frame deliver it. */
  lemma OneFrame(server: bool, maxSize: nat, h: Header, data: seq<byte>)
    requires h.fin && !h.rsv1 && !h.rsv2 && !h.rsv3 && h.key.Some? == server && |data| == SizeOf(h) <= maxSize
    requires h.opcode == 0x2 || (h.opcode == 0x1 && U.IsUtf8(data))
    ensures Deliver(Start(server, maxSize), Frame(h, data).Wire())
            == Delivered([Message(h.opcode, data)], Start(server, maxSize))
  {
    hide Deliver, DeliverFrames, Encode, Unmasked, U.IsUtf8, U.IsUtf8Prefix;
    var f := Frame(h, data);
    OneIsMessage(server, f);
    OneWire(f);
    hide IsMessage, DataOf, ControlsOf, IsUncompressed;
    MessageDelivered(server, maxSize, [f]);
    DeliversFrames(Start(server, maxSize), [f]);
  }

  lemma OneIsMessage(server: bool, f: Frame)
    requires f.h.fin && IsUncompressed(server, f) && (f.h.opcode == 0x1 || f.h.opcode == 0x2)
    ensures IsMessage(server, [f]) && DataOf([f]) == f.data && MessagesOf([f]) == [Message(f.h.opcode, f.data)]
  {
    hide SizeOf;
    assert [f][1..] == [] && f.data + [] == f.data;
    NoFrames();
    FragmentAndRest([f], [], 0);
    assert [] + [Message(f.h.opcode, f.data)] == [Message(f.h.opcode, f.data)];
    SmallEnough(f);
  }

  lemma SmallEnough(f: Frame)
    requires f.Valid()
    ensures |f.data| <= SIZE_MAX
  {
  }

  lemma OneWire(f: Frame)
    ensures Wires([f]) == f.Wire()
  {
    hide Encode, Unmasked;
    var none: seq<Frame> := [];
    assert [f][1..] == none && Wires(none) == [];
    assert f.Wire() + [] == f.Wire();
  }

  /** A single-frame unmasked text message, to a client, and a masked one, to a server. */
  lemma HelloArrives()
    ensures Deliver(Start(false, 5), [0x81, 0x05, 0x48, 0x65, 0x6c, 0x6c, 0x6f])
            == Delivered([Message(0x1, HELLO)], Start(false, 5))
    ensures Deliver(Start(true, 5), [0x81, 0x85, 0x37, 0xfa, 0x21, 0x3d, 0x7f, 0x9f, 0x4d, 0x51, 0x58])
            == Delivered([Message(0x1, HELLO)], Start(true, 5))
  {
    hide Deliver, Encode, Masked, U.IsUtf8;
    AsciiIsUtf8(HELLO);
    SmallHeaders();
    MaskedHeaders();
    HelloMasked();
    OneFrame(false, 5, HeaderOf(true, 0x1, 5, None), HELLO);
    OneFrame(true, 5, HeaderOf(true, 0x1, 5, Some(KEY)), HELLO);
    assert [0x81, 0x05] + HELLO == [0x81, 0x05, 0x48, 0x65, 0x6c, 0x6c, 0x6f];
    var wire: seq<byte> := [0x81, 0x85, 0x37, 0xfa, 0x21, 0x3d, 0x7f, 0x9f, 0x4d, 0x51, 0x58];
    assert Encode(HeaderOf(true, 0x1, 5, Some(KEY))) + Masked(HELLO, KEY, 0) == wire;
    assert Unmasked(HeaderOf(true, 0x1, 5, Some(KEY)), 0, HELLO) == Masked(HELLO, KEY, 0);
  }

  /** Binary messages of 256 bytes and of 64 kilobytes. */
  lemma BinaryArrives(data: seq<byte>, more: seq<byte>)
    requires |data| == 256 && |more| == 0x10000
    ensures Deliver(Start(false, 0x10000), [0x82, 0x7E, 0x01, 0x00] + data)
            == Delivered([Message(0x2, data)], Start(false, 0x10000))
    ensures Deliver(Start(false, 0x10000), [0x82, 0x7F, 0x00, 0x00, 0x00, 0x00, 0x00, 0x01, 0x00, 0x00] + more)
            == Delivered([Message(0x2, more)], Start(false, 0x10000))
  {
    hide Deliver, Encode;
    LargeHeaders();
    OneFrame(false, 0x10000, HeaderOf(true, 0x2, 256, None), data);
    LargeArrives(more);
  }

  lemma LargeArrives(data: seq<byte>)
    requires |data| == 0x10000
    ensures Deliver(Start(false, 0x10000), [0x82, 0x7F, 0x00, 0x00, 0x00, 0x00, 0x00, 0x01, 0x00, 0x00] + data)
            == Delivered([Message(0x2, data)], Start(false, 0x10000))
  {
    hide Deliver, Encode;
    LargeHeaders();
    var h := HeaderOf(true, 0x2, 0x10000, None);
    assert SizeOf(h) == 0x10000;
    OneFrame(false, 0x10000, h, data);
  }

  /** A fragmented text message with a ping between its fragments. */
  lemma FragmentsArrive()
    ensures Deliver(Start(false, 5), [0x01, 0x03, 0x48, 0x65, 0x6c] + [0x89, 0x05, 0x48, 0x65, 0x6c, 0x6c, 0x6f]
                                     + [0x80, 0x02, 0x6c, 0x6f])
            == Delivered([Message(0x9, HELLO), Message(0x1, HELLO)], Start(false, 5))
  {
    hide Deliver, DeliverFrames, Encode, U.IsUtf8, U.IsUtf8Prefix;
    var first := Frame(HeaderOf(false, 0x1, 3, None), [0x48, 0x65, 0x6c]);
    var ping := Frame(HeaderOf(true, 0x9, 5, None), HELLO);
    var last := Frame(HeaderOf(true, 0x0, 2, None), [0x6c, 0x6f]);
    SmallHeaders();
    AsciiIsUtf8(HELLO);
    WholeIsPrefix(HELLO);
    ThreeFrames(first, ping, last);
    assert [0x48, 0x65, 0x6c] + [0x6c, 0x6f] == HELLO;
    assert first.Wire() == [0x01, 0x03, 0x48, 0x65, 0x6c] && last.Wire() == [0x80, 0x02, 0x6c, 0x6f];
    assert ping.Wire() == [0x89, 0x05, 0x48, 0x65, 0x6c, 0x6c, 0x6f];
    var fs := [first, ping, last];
    assert IsControlFrame(false, ping) && IsTail(false, [last]) && IsTail(false, [ping, last]);
    assert IsMessage(false, fs);
    MessageDelivered(false, 5, fs);
    DeliversFrames(Start(false, 5), fs);
  }

  lemma ThreeFrames(f: Frame, g: Frame, h: Frame)
    ensures var fs := [f, g, h]; fs[1..] == [g, h] && fs[1..][1..] == [h] && fs[1..][1..][1..] == []
    ensures Wires([f, g, h]) == f.Wire() + g.Wire() + h.Wire()
    ensures !IsControl(f.h.opcode) && IsControl(g.h.opcode) && !IsControl(h.h.opcode) ==>
              && DataOf([f, g, h]) == f.data + h.data
              && ControlsOf([f, g, h]) == [Message(g.h.opcode, g.data)]
  {
    hide Encode, Unmasked, IsControl;
    var none: seq<Frame> := [];
    assert [f, g, h][1..] == [g, h] && [g, h][1..] == [h] && [h][1..] == none;
    OneWire(h);
    assert f.Wire() + (g.Wire() + h.Wire()) == f.Wire() + g.Wire() + h.Wire();
    NoFrames();
    hide DataOf, ControlsOf;
    if !IsControl(f.h.opcode) && IsControl(g.h.opcode) && !IsControl(h.h.opcode) {
      FragmentAndRest([f, g, h], [], 0);
      ControlAndRest([g, h], [], 0);
      FragmentAndRest([h], [], 0);
      assert h.data + [] == h.data;
      assert [Message(g.h.opcode, g.data)] + [] == [Message(g.h.opcode, g.data)];
    }
  }

  /** A close frame between the fragments of a text is delivered at once. */
  lemma CloseArrivesBetween()
    ensures var d := Deliver(Start(false, 10), [0x01, 0x01, 0x61] + [0x88, 0x00]);
            d.messages == [Message(0x8, [])] && d.end == Start(false, 10).(data := Some(Message(0x1, [0x61])))
  {
    hide Deliver, DeliverFrames, Encode, U.IsUtf8, U.IsUtf8Prefix;
    var first := Frame(HeaderOf(false, 0x1, 1, None), [0x61]);
    var close := Frame(HeaderOf(true, 0x8, 0, None), []);
    SmallHeaders();
    AsciiIsUtf8([0x61]);
    WholeIsPrefix([0x61]);
    AfterFirst(false, 10, first);
    AfterControlFrame(Within(false, 10, Message(0x1, [0x61])), close);
    TwoFrames(Start(false, 10), first, close);
    assert first.Wire() == [0x01, 0x01, 0x61];
    var wire: seq<byte> := [0x88, 0x00];
    assert wire + [] == wire == close.Wire();
    DeliversFrames(Start(false, 10), [first, close]);
  }

  lemma TwoFrames(s: Session, f: Frame, g: Frame)
    requires AfterFrame(s, f).phase == Basic([]) && AfterFrame(AfterFrame(s, f), g).phase.Ready?
    ensures Wires([f, g]) == f.Wire() + g.Wire()
    ensures var a := AfterFrame(AfterFrame(s, f), g); DeliverFrames(s, [f, g]) == Delivered(Ripe(a), Taken(a))
  {
    hide Encode, Unmasked, AfterFrame, Ripe, Taken;
    OneWire(g);
    var none: seq<Frame> := [];
    assert [f, g][1..] == [g] && [g][1..] == none;
    var t := AfterFrame(s, f);
    var a := AfterFrame(t, g);
    assert DeliverFrames(Taken(a), none) == Delivered([], Taken(a));
    assert Ripe(a) + [] == Ripe(a);
    assert DeliverFrames(t, [g]) == Delivered(Ripe(a), Taken(a));
  }

  // ----- bytes that break a rule -----

  lemma Refused(s: Session, b0: byte, b1: byte, rest: seq<byte>, e: Error)
    requires s.phase == Basic([]) && BasicError(s.server, s.data.None?, b0, b1) == Some(e)
    ensures var d := Deliver(s, [b0, b1] + rest); d.messages == [] && d.end.phase == Failed(e)
  {
    hide BasicError, Run;
    ReadsBasic(s, b0, b1, rest);
    DeliverIs(s, [b0, b1] + rest);
  }

  /** Each rule that two bytes can break, and its error. */
  lemma BrokenRules(rest: seq<byte>)
    ensures Deliver(Start(false, 10), [0x89, 0x7E] + rest).end.phase == Failed(ControlTooBig)
    ensures Deliver(Start(false, 10), [0xC1, 0x00] + rest).end.phase == Failed(InvalidRsvBit)
    ensures Deliver(Start(false, 10), [0xA1, 0x00] + rest).end.phase == Failed(InvalidRsvBit)
    ensures Deliver(Start(false, 10), [0x91, 0x00] + rest).end.phase == Failed(InvalidRsvBit)
    ensures Deliver(Start(false, 10), [0x83, 0x00] + rest).end.phase == Failed(InvalidOpcode)
    ensures Deliver(Start(false, 10), [0x8B, 0x00] + rest).end.phase == Failed(InvalidOpcode)
    ensures Deliver(Start(false, 10), [0x09, 0x00] + rest).end.phase == Failed(FragmentedControl)
    ensures Deliver(Start(false, 10), [0x80, 0x00] + rest).end.phase == Failed(InvalidContinuation)
    ensures Deliver(Start(true, 10), [0x81, 0x00] + rest).end.phase == Failed(MaskingRequired)
    ensures Deliver(Start(false, 10), [0x81, 0x80] + rest).end.phase == Failed(MaskingForbidden)
  {
    BrokenByBytes();
    hide BasicError, Deliver;
    var client, server := Start(false, 10), Start(true, 10);
    Refused(client, 0x89, 0x7E, rest, ControlTooBig);
    Refused(client, 0xC1, 0x00, rest, InvalidRsvBit);
    Refused(client, 0xA1, 0x00, rest, InvalidRsvBit);
    Refused(client, 0x91, 0x00, rest, InvalidRsvBit);
    Refused(client, 0x83, 0x00, rest, InvalidOpcode);
    Refused(client, 0x8B, 0x00, rest, InvalidOpcode);
    Refused(client, 0x09, 0x00, rest, FragmentedControl);
    Refused(client, 0x80, 0x00, rest, InvalidContinuation);
    Refused(server, 0x81, 0x00, rest, MaskingRequired);
    Refused(client, 0x81, 0x80, rest, MaskingForbidden);
  }

  lemma BrokenByBytes()
    ensures BasicError(false, true, 0x89, 0x7E) == Some(ControlTooBig)
    ensures BasicError(false, true, 0xC1, 0x00) == Some(InvalidRsvBit)
    ensures BasicError(false, true, 0xA1, 0x00) == Some(InvalidRsvBit)
    ensures BasicError(false, true, 0x91, 0x00) == Some(InvalidRsvBit)
    ensures BasicError(false, true, 0x83, 0x00) == Some(InvalidOpcode)
    ensures BasicError(false, true, 0x8B, 0x00) == Some(InvalidOpcode)
    ensures BasicError(false, true, 0x09, 0x00) == Some(FragmentedControl)
    ensures BasicError(false, true, 0x80, 0x00) == Some(InvalidContinuation)
    ensures BasicError(true, true, 0x81, 0x00) == Some(MaskingRequired)
    ensures BasicError(false, true, 0x81, 0x80) == Some(MaskingForbidden)
  {
  }

  /** A data frame while a message is under way. */
  lemma SecondBegins()
    ensures Deliver(Start(false, 10), [0x01, 0x01, 0x61] + [0x81, 0x00]).end.phase == Failed(InvalidContinuation)
  {
    hide Deliver, DeliverFrames, Encode, U.IsUtf8, U.IsUtf8Prefix;
    var first := Frame(HeaderOf(false, 0x1, 1, None), [0x61]);
    SmallHeaders();
    AsciiIsUtf8([0x61]);
    WholeIsPrefix([0x61]);
    AfterFirst(false, 10, first);
    var s := Within(false, 10, Message(0x1, [0x61]));
    OneLeads(Start(false, 10), first);
    assert first.Wire() == [0x01, 0x01, 0x61];
    assert AfterFrame(Start(false, 10), first) == s;
    assert Deliver(Start(false, 10), [0x01, 0x01, 0x61]).end == s;
    DeliverAppend(Start(false, 10), [0x01, 0x01, 0x61], [0x81, 0x00]);
    assert BasicError(false, false, 0x81, 0x00) == Some(InvalidContinuation);
    hide BasicError;
    Refused(s, 0x81, 0x00, [], InvalidContinuation);
    var second: seq<byte> := [0x81, 0x00];
    assert second + [] == second;
  }

  lemma OneLeads(s: Session, f: Frame)
    requires s.phase == Basic([]) && f.Valid() && AfterFrame(s, f).phase == Basic([])
    ensures Deliver(s, f.Wire()).end == AfterFrame(s, f)
  {
    hide Encode, Unmasked, AfterFrame;
    var none: seq<Frame> := [];
    assert [f][1..] == none && DeliverFrames(AfterFrame(s, f), none) == Delivered([], AfterFrame(s, f));
    OneWire(f);
    DeliversFrames(s, [f]);
  }

  lemma NotMinimal()
    ensures BasicError(false, true, 0x82, 0x7E) == None && HeaderLength(0x7E) == 4
    ensures IsNonMinimal(0x7E, Decode([0x82, 0x7E] + [0x00, 0x05]).size)
  {
    assert ([0x82, 0x7E] + [0x00, 0x05])[2..] == [0x00, 0x05];
    assert Size16(0x00, 0x05) == 5;
    hide Size16;
  }

  /** A size in a longer form than needed. */
  lemma LongFormRefused()
    ensures Deliver(Start(false, 10), [0x82, 0x7E, 0x00, 0x05]).end.phase == Failed(NonMinimalEncoding)
  {
    hide BasicError, HeaderLength, IsNonMinimal, Decode, Deliver, Run;
    NotMinimal();
    var s := Start(false, 10);
    ReadsBasic(s, 0x82, 0x7E, [0x00, 0x05]);
    var t := s.(phase := Extended(0x82, 0x7E, []));
    RunExtended(t, 0x82, 0x7E, [], [0x00, 0x05], []);
    var size: seq<byte> := [0x00, 0x05];
    assert size + [] == size && [] + size == size;
    var u := s.(phase := Extended(0x82, 0x7E, [0x00, 0x05]));
    assert Settle(u) == u.Fail(NonMinimalEncoding);
    FailedStays(Settle(u), []);
    var wire: seq<byte> := [0x82, 0x7E, 0x00, 0x05];
    assert [0x82, 0x7E] + size == wire;
    DeliverIs(s, wire);
  }

  /** A message over the limit is refused by its header. */
  lemma LargeRefused()
    ensures Deliver(Start(false, 10), [0x82, 0x0B]).end.phase == Failed(MessageTooBig)
  {
    hide Encode, Deliver, Run;
    var h, s := HeaderOf(true, 0x2, 11, None), Start(false, 10);
    assert Encode(h) == [0x82, 0x0B] by {
      ElevenHeader();
    }
    assert FrameError(s, h) == None;
    ReadsHeader(s, h, []);
    var wire: seq<byte> := [0x82, 0x0B];
    assert wire + [] == wire;
    assert Begin(s, h) == s.Fail(MessageTooBig);
    FailedStays(Begin(s, h), []);
    DeliverIs(s, wire);
  }

  lemma ElevenHeader()
    ensures Encode(HeaderOf(true, 0x2, 11, None)) == [0x82, 0x0B]
  {
  }
}
