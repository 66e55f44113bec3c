/** Whole messages: fragments with control frames between them, and when a text is accepted. */
module Messages {
  import opened Options
  import opened Words
  import opened FrameHeader
  import opened Session
  import S = Sequences
  import U = Utf8Spec

  const BINARY: Opcode := 2

  // Sizes are size_t in the program; a limit that leaves room for one more byte keeps sums exact.

  const SIZE_MAX := 0xFFFF_FFFF_FFFF_FFFF

  /** No extension is in use, and exactly the frames to a server are masked. */
  predicate IsUncompressed(server: bool, f: Frame) {
    f.Valid() && !f.h.rsv1 && !f.h.rsv2 && !f.h.rsv3 && f.h.key.Some? == server
  }

  /** A control frame as section 5.5 of RFC 6455 wants it. */
  predicate IsControlFrame(server: bool, f: Frame) {
    IsUncompressed(server, f) && IsControl(f.h.opcode) && !IsReserved(f.h.opcode) && f.h.fin && f.h.size <= 125
  }

  predicate IsContinuation(server: bool, f: Frame) {
    IsUncompressed(server, f) && f.h.opcode == CONTINUATION
  }

  /** These are the control frames and the fragments that break no rule while a message is under way. */
  lemma FramesBetween(s: Session, f: Frame)
    requires s.data.Some? && f.Valid()
    ensures IsControlFrame(s.server, f) <==> f.h.opcode >= 0x8 && FrameError(s, f.h).None?
    ensures IsContinuation(s.server, f) <==> f.h.opcode < 0x8 && FrameError(s, f.h).None?
  {
    hide SizeOf;
    FrameRules(s, f.h);
    OpcodesInUse(f.h.opcode);
    hide FrameError, IsReserved;
  }

  /** The frames behind the first fragment of a message, as section 5.4 of RFC 6455 wants them: further
      fragments, the last of them final, with control frames anywhere between. */
  predicate IsTail(server: bool, fs: seq<Frame>) {
    fs != [] &&
    if IsControl(fs[0].h.opcode) then IsControlFrame(server, fs[0]) && IsTail(server, fs[1..])
    else IsContinuation(server, fs[0]) && if fs[0].h.fin then |fs| == 1 else IsTail(server, fs[1..])
  }

  function DataOf(fs: seq<Frame>): seq<byte> {
    if fs == [] then [] else (if IsControl(fs[0].h.opcode) then [] else fs[0].data) + DataOf(fs[1..])
  }

  function ControlsOf(fs: seq<Frame>): seq<Message> {
    if fs == [] then []
    else (if IsControl(fs[0].h.opcode) then [Message(fs[0].h.opcode, fs[0].data)] else []) + ControlsOf(fs[1..])
  }

  /** A session that has read some fragments of a data message. */
  function Within(server: bool, maxSize: nat, m: Message): Session {
    Start(server, maxSize).(data := Some(m))
  }

  lemma AfterControlFrame(s: Session, f: Frame)
    requires IsControlFrame(s.server, f)
    ensures AfterFrame(s, f) == s.(control := Some(Message(f.h.opcode, f.data)), phase := Ready(true))
  {
    hide U.IsUtf8, U.IsUtf8Prefix, SizeOf;
    assert [] + f.data == f.data;
  }

  /** A fragment is appended to its message, unless it is too big or makes a text hopeless. */
  lemma AfterContinuation(server: bool, maxSize: nat, m: Message, f: Frame)
    requires IsContinuation(server, f) && |m.payload + f.data| <= SIZE_MAX
    requires m.opcode == TEXT ==> U.IsUtf8Prefix(m.payload)
    ensures var m' := Message(m.opcode, m.payload + f.data);
            var a := AfterFrame(Within(server, maxSize, m), f);
            if |m'.payload| > maxSize then a.phase == Failed(MessageTooBig)
            else if m.opcode == TEXT && !U.IsUtf8Prefix(m'.payload) then a.phase == Failed(InvalidUtf8)
            else a == Within(server, maxSize, m').(phase := if f.h.fin then Ready(false) else Basic([]))
  {
    hide U.IsUtf8, U.IsUtf8Prefix;
    assert f.data == [] ==> m.payload + f.data == m.payload;
    assert FrameError(Within(server, maxSize, m), f.h) == None;
    hide SizeOf;
  }

  /** The data of the fragments that fit into so much room, up to the first that does not. */
  function Fitting(fs: seq<Frame>, room: nat): seq<byte> {
    if fs == [] then []
    else if IsControl(fs[0].h.opcode) then Fitting(fs[1..], room)
    else if |fs[0].data| > room then []
    else fs[0].data + Fitting(fs[1..], room - |fs[0].data|)
  }

  /** If everything fits, that is all the data. */
  lemma {:induction false} AllFitting(fs: seq<Frame>, room: nat)
    requires |DataOf(fs)| <= room
    ensures Fitting(fs, room) == DataOf(fs)
  {
    if fs != [] {
      assert [] + DataOf(fs[1..]) == DataOf(fs[1..]);
      AllFitting(fs[1..], if IsControl(fs[0].h.opcode) then room else room - |fs[0].data|);
    }
  }

  /** The rest of a fragmented message is delivered with the control messages that came between, in their
      order, unless it gets too big, or is a text that no continuation could make UTF-8. A text is judged as
      far as it fits. */
  lemma {:induction false} TailDelivers(server: bool, maxSize: nat, m: Message, fs: seq<Frame>)
    requires IsTail(server, fs) && |m.payload| <= maxSize && |m.payload + DataOf(fs)| <= SIZE_MAX
    requires m.opcode == TEXT ==> U.IsUtf8Prefix(m.payload)
    ensures var d, whole := DeliverFrames(Within(server, maxSize, m), fs), m.payload + DataOf(fs);
            if m.opcode == TEXT && !U.IsUtf8Prefix(m.payload + Fitting(fs, maxSize - |m.payload|)) then
              d.end.phase == Failed(InvalidUtf8)
            else if |whole| > maxSize then d.end.phase == Failed(MessageTooBig)
            else d == Delivered(ControlsOf(fs) + [Message(m.opcode, whole)], Start(server, maxSize))
    decreases |fs|
  {
    hide AfterFrame, U.IsUtf8, U.IsUtf8Prefix, IsControlFrame, IsContinuation, DataOf, ControlsOf, Fitting;
    var s, f, rest := Within(server, maxSize, m), fs[0], fs[1..];
    NoFrames();
    if IsControl(f.h.opcode) {
      AfterControlFrame(s, f);
      ControlAndRest(fs, m.payload, maxSize - |m.payload|);
      TailDelivers(server, maxSize, m, rest);
      assert Taken(AfterFrame(s, f)) == s;
      var c := [Message(f.h.opcode, f.data)];
      var last := [Message(m.opcode, m.payload + DataOf(fs))];
      assert c + (ControlsOf(rest) + last) == c + ControlsOf(rest) + last;
    } else {
      FragmentAndRest(fs, m.payload, maxSize - |m.payload|);
      AfterContinuation(server, maxSize, m, f);
      var m' := Message(m.opcode, m.payload + f.data);
      if |m'.payload| <= maxSize {
        var more := Fitting(rest, maxSize - |m'.payload|);
        if m.opcode == TEXT && !U.IsUtf8Prefix(m'.payload) {
          LongerIsHopeless(m.payload, f.data, more);
          assert m'.payload + more == m.payload + (f.data + more);
        } else if f.h.fin {
          assert rest == [];
          assert m'.payload + [] == m'.payload;
          assert DeliverFrames(Start(server, maxSize), rest) == Delivered([], Start(server, maxSize));
        } else {
          TailDelivers(server, maxSize, m', rest);
        }
      }
    }
  }

  lemma NoFrames()
    ensures DataOf([]) == [] && ControlsOf([]) == [] && forall room :: Fitting([], room) == []
  {
  }

  lemma ControlAndRest(fs: seq<Frame>, payload: seq<byte>, room: nat)
    requires fs != [] && IsControl(fs[0].h.opcode)
    ensures DataOf(fs) == DataOf(fs[1..]) && Fitting(fs, room) == Fitting(fs[1..], room)
    ensures ControlsOf(fs) == [Message(fs[0].h.opcode, fs[0].data)] + ControlsOf(fs[1..])
  {
    assert [] + DataOf(fs[1..]) == DataOf(fs[1..]);
  }

  lemma FragmentAndRest(fs: seq<Frame>, payload: seq<byte>, room: nat)
    requires fs != [] && !IsControl(fs[0].h.opcode)
    ensures ControlsOf(fs) == ControlsOf(fs[1..]) && DataOf(fs) == fs[0].data + DataOf(fs[1..])
    ensures payload + DataOf(fs) == payload + fs[0].data + DataOf(fs[1..])
    ensures payload + Fitting(fs, room)
            == if |fs[0].data| > room then payload
               else payload + fs[0].data + Fitting(fs[1..], room - |fs[0].data|)
  {
    assert [] + ControlsOf(fs[1..]) == ControlsOf(fs[1..]);
    assert payload + [] == payload;
  }

  /** The frames of one data message with the control frames between its fragments. */
  predicate IsMessage(server: bool, fs: seq<Frame>) {
    && fs != [] && IsUncompressed(server, fs[0]) && (fs[0].h.opcode == TEXT || fs[0].h.opcode == BINARY)
    && (if fs[0].h.fin then |fs| == 1 else IsTail(server, fs[1..]))
    && |DataOf(fs)| <= SIZE_MAX
  }

  /** What the code asks of a text message, as far as it fits: of one frame, that it is UTF-8; of a fragmented
      one, only that it could become UTF-8. */
  ghost predicate IsGoodText(maxSize: nat, fs: seq<Frame>)
    requires fs != []
  {
    fs[0].h.opcode == TEXT && |fs[0].data| <= maxSize ==>
      if fs[0].h.fin then U.IsUtf8(DataOf(fs)) else U.IsUtf8Prefix(Fitting(fs, maxSize))
  }

  ghost predicate IsAccepted(maxSize: nat, fs: seq<Frame>)
    requires fs != []
  {
    && |DataOf(fs)| <= maxSize
    && (fs[0].h.opcode == TEXT ==> if fs[0].h.fin then U.IsUtf8(DataOf(fs)) else U.IsUtf8Prefix(DataOf(fs)))
  }

  lemma WholeIsPrefix(payload: seq<byte>)
    requires U.IsUtf8(payload)
    ensures U.IsUtf8Prefix(payload)
  {
    assert payload + [] == payload;
  }

  /** The first frame of a message. */
  lemma AfterFirst(server: bool, maxSize: nat, f: Frame)
    requires IsUncompressed(server, f) && (f.h.opcode == TEXT || f.h.opcode == BINARY) && |f.data| <= maxSize
    ensures var a, m := AfterFrame(Start(server, maxSize), f), Message(f.h.opcode, f.data);
            if f.h.opcode == TEXT && !(if f.h.fin then U.IsUtf8(f.data) else U.IsUtf8Prefix(f.data)) then
              a.phase == Failed(InvalidUtf8)
            else a == Within(server, maxSize, m).(phase := if f.h.fin then Ready(false) else Basic([]))
  {
    hide U.IsUtf8, U.IsUtf8Prefix;
    assert [] + f.data == f.data;
    NothingIsUtf8();
    if U.IsUtf8(f.data) {
      WholeIsPrefix(f.data);
    }
    FirstIsFine(server, maxSize, f);
    hide SizeOf, FrameError;
  }

  lemma FirstIsFine(server: bool, maxSize: nat, f: Frame)
    requires IsUncompressed(server, f) && (f.h.opcode == TEXT || f.h.opcode == BINARY) && |f.data| <= maxSize
    ensures var s := Start(server, maxSize);
            && FrameError(s, f.h) == None && !IsControl(f.h.opcode)
            && Begin(s, f.h) == s.(data := Some(Message(f.h.opcode, [])), phase := Payload(f.h, 0))
  {
  }

  lemma NothingIsUtf8()
    ensures U.IsUtf8([]) && U.IsUtf8Prefix([])
  {
    var cs: seq<seq<byte>> := [];
    assert S.Flatten(cs) == [];
    WholeIsPrefix([]);
  }

  lemma FirstTooBig(server: bool, maxSize: nat, f: Frame)
    requires IsUncompressed(server, f) && (f.h.opcode == TEXT || f.h.opcode == BINARY) && |f.data| > maxSize
    ensures AfterFrame(Start(server, maxSize), f).phase == Failed(MessageTooBig)
  {
  }

  /** A message is delivered whole, behind the control messages that came between its fragments, if and
      only if it is accepted. Otherwise it ends in an error: of its text, as far as that fits, or else of its
      size. */
  lemma MessageDelivered(server: bool, maxSize: nat, fs: seq<Frame>)
    requires IsMessage(server, fs)
    ensures var d := DeliverFrames(Start(server, maxSize), fs);
            if IsAccepted(maxSize, fs) then d == Delivered(MessagesOf(fs), Start(server, maxSize))
            else d.end.phase == Failed(if IsGoodText(maxSize, fs) then MessageTooBig else InvalidUtf8)
  {
    hide AfterFrame, U.IsUtf8, U.IsUtf8Prefix, IsTail, DataOf, ControlsOf, Fitting;
    var f, rest := fs[0], fs[1..];
    NoFrames();
    FragmentAndRest(fs, [], maxSize);
    assert [] + f.data + DataOf(rest) == DataOf(fs) && [] + f.data == f.data;
    if |f.data| > maxSize {
      FirstTooBig(server, maxSize, f);
    } else {
      AfterFirst(server, maxSize, f);
      if f.h.fin {
        assert rest == [] && f.data + [] == f.data;
      } else {
        FragmentsDelivered(server, maxSize, fs);
      }
    }
  }

  lemma FragmentsDelivered(server: bool, maxSize: nat, fs: seq<Frame>)
    requires IsMessage(server, fs) && !fs[0].h.fin && |fs[0].data| <= maxSize
    requires DataOf(fs) == fs[0].data + DataOf(fs[1..]) && ControlsOf(fs) == ControlsOf(fs[1..])
    requires [] + Fitting(fs, maxSize) == fs[0].data + Fitting(fs[1..], maxSize - |fs[0].data|)
    ensures var d := DeliverFrames(Start(server, maxSize), fs);
            if IsAccepted(maxSize, fs) then d == Delivered(MessagesOf(fs), Start(server, maxSize))
            else d.end.phase == Failed(if IsGoodText(maxSize, fs) then MessageTooBig else InvalidUtf8)
  {
    hide AfterFrame, U.IsUtf8, U.IsUtf8Prefix, IsTail, DataOf, ControlsOf, Fitting;
    var f, rest := fs[0], fs[1..];
    var m, more := Message(f.h.opcode, f.data), Fitting(rest, maxSize - |f.data|);
    AfterFirst(server, maxSize, f);
    assert [] + Fitting(fs, maxSize) == Fitting(fs, maxSize);
    if U.IsUtf8Prefix(f.data + more) {
      PrefixOfPrefix(f.data, more);
    }
    if |DataOf(fs)| <= maxSize {
      AllFitting(fs, maxSize);
    }
    if f.h.opcode == TEXT ==> U.IsUtf8Prefix(f.data) {
      TailDelivers(server, maxSize, m, rest);
    }
  }

  lemma {:induction false} DeliverMore(s: Session, fs: seq<Frame>, gs: seq<Frame>)
    requires !s.phase.Failed?
    ensures var d := DeliverFrames(s, fs);
            DeliverFrames(s, fs + gs) == if d.end.phase.Failed? then d
                                         else var e := DeliverFrames(d.end, gs);
                                              Delivered(d.messages + e.messages, e.end)
    decreases |fs|
  {
    hide AfterFrame, Ripe;
    if fs == [] {
      assert fs + gs == gs;
      assert [] + DeliverFrames(s, gs).messages == DeliverFrames(s, gs).messages;
    } else {
      var a := AfterFrame(s, fs[0]);
      assert (fs + gs)[1..] == fs[1..] + gs;
      if a.phase.Ready? {
        DeliverMore(Taken(a), fs[1..], gs);
      } else if !a.phase.Failed? {
        DeliverMore(a, fs[1..], gs);
      }
    }
  }

  /** The control messages between the fragments, and the data message. */
  function MessagesOf(fs: seq<Frame>): seq<Message> {
    ControlsOf(fs) + if fs == [] then [] else [Message(fs[0].h.opcode, DataOf(fs))]
  }

  function AllMessages(conversation: seq<seq<Frame>>): seq<Message> {
    if conversation == [] then [] else MessagesOf(conversation[0]) + AllMessages(conversation[1..])
  }

  /** A whole conversation: every message is delivered, complete and in order. */
  lemma {:induction false} ConversationDelivered(server: bool, maxSize: nat, conversation: seq<seq<Frame>>)
    requires forall k | 0 <= k < |conversation| ::
             IsMessage(server, conversation[k]) && IsAccepted(maxSize, conversation[k])
    ensures DeliverFrames(Start(server, maxSize), S.Flatten(conversation))
            == Delivered(AllMessages(conversation), Start(server, maxSize))
    decreases |conversation|
  {
    if conversation != [] {
      var fs, rest := conversation[0], S.Flatten(conversation[1..]);
      assert IsMessage(server, fs) && IsAccepted(maxSize, fs);
      MessageDelivered(server, maxSize, fs);
      ConversationDelivered(server, maxSize, conversation[1..]);
      DeliverMore(Start(server, maxSize), fs, rest);
      hide DeliverFrames, IsMessage, IsAccepted;
    }
  }

  predicate AllValid(fs: seq<Frame>) {
    forall k | 0 <= k < |fs| :: fs[k].Valid()
  }

  lemma {:induction false} TailValid(server: bool, fs: seq<Frame>)
    requires IsTail(server, fs)
    ensures AllValid(fs)
    decreases |fs|
  {
    hide SizeOf;
    if |fs| > 1 {
      TailValid(server, fs[1..]);
      assert forall k | 1 <= k < |fs| :: fs[k] == fs[1..][k - 1];
    }
  }

  lemma {:induction false} ConversationValid(server: bool, conversation: seq<seq<Frame>>)
    requires forall k | 0 <= k < |conversation| :: IsMessage(server, conversation[k])
    ensures AllValid(S.Flatten(conversation))
    decreases |conversation|
  {
    hide SizeOf, IsTail;
    if conversation != [] {
      var fs := conversation[0];
      assert IsMessage(server, fs);
      if |fs| > 1 {
        TailValid(server, fs[1..]);
        assert forall k | 1 <= k < |fs| :: fs[k] == fs[1..][k - 1];
      }
      ConversationValid(server, conversation[1..]);
    }
  }

  /** The bytes of a whole conversation deliver its messages, complete and in order. */
  lemma WiresDelivered(server: bool, maxSize: nat, conversation: seq<seq<Frame>>)
    requires forall k | 0 <= k < |conversation| ::
             IsMessage(server, conversation[k]) && IsAccepted(maxSize, conversation[k])
    ensures Deliver(Start(server, maxSize), Wires(S.Flatten(conversation)))
            == Delivered(AllMessages(conversation), Start(server, maxSize))
  {
    ConversationValid(server, conversation);
    ConversationDelivered(server, maxSize, conversation);
    DeliversFrames(Start(server, maxSize), S.Flatten(conversation));
    hide Deliver, DeliverFrames, Wires, IsMessage, IsAccepted;
  }

  /** A text cut inside a character, sent in two fragments, is delivered although it is not UTF-8: the
      final frame is no text frame, so the text is not judged as a whole. */
  lemma TruncatedTextDelivered()
    ensures var first := Frame(Header(false, false, false, false, TEXT, 1, None), [0xC3]);
            var last := Frame(Header(true, false, false, false, CONTINUATION, 0, None), []);
            && DeliverFrames(Start(false, 1), [first, last]).messages == [Message(TEXT, [0xC3])]
            && !U.IsUtf8([0xC3])
  {
    var first := Frame(Header(false, false, false, false, TEXT, 1, None), [0xC3]);
    var last := Frame(Header(true, false, false, false, CONTINUATION, 0, None), []);
    var fs := [first, last];
    assert [last][1..] == [] && fs[1..] == [last];
    assert DataOf([last]) == [] && ControlsOf([last]) == [];
    assert DataOf(fs) == [0xC3] && ControlsOf(fs) == [];
    TruncatedCharacter();
    MessageDelivered(false, 1, fs);
  }

  lemma TruncatedCharacter()
    ensures U.IsUtf8Prefix([0xC3]) && !U.IsUtf8([0xC3])
  {
    var cs: seq<seq<byte>> := [[0xC3, 0x80]];
    assert U.IsChar(cs[0]);
    assert cs[1..] == [] && S.Flatten(cs) == [0xC3, 0x80];
    assert [0xC3] + [0x80] == [0xC3, 0x80];
    assert U.IsUtf8([0xC3] + [0x80]);
    if cs: seq<seq<byte>> :| (forall i | 0 <= i < |cs| :: U.IsChar(cs[i])) && S.Flatten(cs) == [0xC3] {
      assert U.IsChar(cs[0]) && cs[0] + S.Flatten(cs[1..]) == [0xC3];
      assert cs[0][0] == 0xC3;
    }
  }
}
