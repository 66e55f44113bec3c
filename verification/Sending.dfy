/** Preparing frames to be sent, and what the other side of the connection receives. */
module Sending {
  import opened Options
  import opened Words
  import opened Masking
  import opened FrameHeader
  import opened Session
  import opened Messages
  import P = Processor
  import S = Sequences
  import U = Utf8Spec
  import V = Utf8Validator

  /** A prepared message: the bytes of its header and its payload as it goes on the wire. */
  datatype Outgoing = Outgoing(header: seq<byte>, payload: seq<byte>)

  // The size of a string is a machine word, given beside the string.

  predicate IsSizeOf(size: word, data: seq<byte>) {
    |data| == size as nat
  }

  /** A frame to be sent: clients mask, servers do not. */
  function FrameFor(server: bool, op: Opcode, fin: bool, data: seq<byte>, size: word, key: Key): (f: Frame)
    requires IsSizeOf(size, data)
    ensures f.Valid()
  {
    Frame(Header(fin, false, false, false, op, size, if server then None else Some(key)), data)
  }

  /** The frames that one side prepares without an error. */
  ghost predicate IsPrepared(server: bool, f: Frame) {
    && f.Valid() && !f.h.rsv1 && !f.h.rsv2 && !f.h.rsv3 && f.h.key.Some? == !server
    && if IsControl(f.h.opcode) then f.h.fin && f.h.size <= 125 else f.h.opcode == TEXT ==> U.IsUtf8(f.data)
  }

  /** The payload, masked word by word if this is a client. */
  method MaskedCopy(server: bool, data: seq<byte>, key: Key) returns (o: seq<byte>)
    ensures o == if server then data else Masked(data, key, 0)
  {
    if server {
      return data;
    }
    hide Masked;
    var input := new byte[|data|](i requires 0 <= i < |data| => data[i]);
    var output := new byte[|data|](_ => 0);
    WordMaskExact(input, 0, output, 0, |data|, key);
    assert input[0..|data|] == data;
    o := output[..];
  }

  method PrepareDataFrame(server: bool, op: Opcode, fin: bool, data: seq<byte>, size: word, key: Key)
    returns (r: Result<Outgoing, Error>)
    requires IsSizeOf(size, data)
    ensures if op >= 0x8 then r == Err(InvalidOpcode)
            else if op == TEXT && !U.IsUtf8(data) then r == Err(InvalidPayload)
            else var f := FrameFor(server, op, fin, data, size, key);
                 r.Ok? && r.value.header + r.value.payload == f.Wire() && IsPrepared(server, f)
  {
    hide Masked, Encode, IsSizeOf;
    if IsControl(op) {
      return Err(InvalidOpcode);
    }
    if op == TEXT {
      var valid := V.Validate(data);
      if !valid {
        return Err(InvalidPayload);
      }
    }
    var header := BuildHeader(FrameFor(server, op, fin, data, size, key).h);
    var payload := MaskedCopy(server, data, key);
    return Ok(Outgoing(header, payload));
  }

  method PrepareControl(server: bool, op: Opcode, data: seq<byte>, size: word, key: Key)
    returns (r: Result<Outgoing, Error>)
    requires IsSizeOf(size, data)
    ensures if op < 0x8 then r == Err(InvalidOpcode)
            else if size > 125 then r == Err(ControlTooBig)
            else var f := FrameFor(server, op, true, data, size, key);
                 r.Ok? && r.value.header + r.value.payload == f.Wire() && IsPrepared(server, f)
  {
    hide Masked, Encode, IsSizeOf;
    if !IsControl(op) {
      return Err(InvalidOpcode);
    }
    if size > 125 {
      return Err(ControlTooBig);
    }
    var header := BuildHeader(FrameFor(server, op, true, data, size, key).h);
    var payload := MaskedCopy(server, data, key);
    return Ok(Outgoing(header, payload));
  }

  // ----- what is prepared, and what the other side receives -----

  /** A frame has its place behind other frames, which leave a message under way or none: its opcode is not
      reserved, it goes on with a message if and only if one is under way, and it neither passes the limit nor
      makes a text hopeless. */
  ghost predicate HasPlace(underWay: Option<Message>, maxSize: nat, f: Frame) {
    && !IsReserved(f.h.opcode)
    && (IsControl(f.h.opcode) ||
        match underWay
        case None => f.h.opcode != CONTINUATION && |f.data| <= maxSize
        case Some(m) =>
          && f.h.opcode == CONTINUATION && (|m.payload| + |f.data|) % 0x1_0000_0000_0000_0000 <= maxSize
          && (m.opcode == TEXT && f.data != [] ==> U.IsUtf8Prefix(m.payload + f.data)))
  }

  /** The data message that a data frame begins or goes on with. */
  function Grown(underWay: Option<Message>, f: Frame): Message {
    match underWay
    case None => Message(f.h.opcode, f.data)
    case Some(m) => Message(m.opcode, m.payload + f.data)
  }

  function StillUnderWay(underWay: Option<Message>, f: Frame): Option<Message> {
    if IsControl(f.h.opcode) then underWay else if f.h.fin then None else Some(Grown(underWay, f))
  }

  /** The message that a frame completes. */
  function Completed(underWay: Option<Message>, f: Frame): seq<Message> {
    if IsControl(f.h.opcode) then [Message(f.h.opcode, f.data)] else if f.h.fin then [Grown(underWay, f)] else []
  }

  /** Every frame has its place behind those before it. */
  ghost predicate IsOrderly(underWay: Option<Message>, maxSize: nat, fs: seq<Frame>)
    decreases |fs|
  {
    fs == [] || (HasPlace(underWay, maxSize, fs[0]) && IsOrderly(StillUnderWay(underWay, fs[0]), maxSize, fs[1..]))
  }

  /** The messages that frames complete, in order. */
  function AllCompleted(underWay: Option<Message>, fs: seq<Frame>): seq<Message>
    decreases |fs|
  {
    if fs == [] then []
    else Completed(underWay, fs[0]) + AllCompleted(StillUnderWay(underWay, fs[0]), fs[1..])
  }

  /** A session that has read whole frames. */
  function Between(server: bool, maxSize: nat, underWay: Option<Message>): Session {
    Start(server, maxSize).(data := underWay)
  }

  lemma ControlIsRead(server: bool, maxSize: nat, underWay: Option<Message>, f: Frame)
    requires IsPrepared(!server, f) && IsControl(f.h.opcode)
    ensures var a := AfterFrame(Between(server, maxSize, underWay), f);
            if IsReserved(f.h.opcode) then a.phase.Failed?
            else a.phase.Ready? && Ripe(a) == [Message(f.h.opcode, f.data)]
                 && Taken(a) == Between(server, maxSize, underWay)
  {
    assert [] + f.data == f.data;
    hide U.IsUtf8, U.IsUtf8Prefix;
  }

  lemma FirstIsRead(server: bool, maxSize: nat, f: Frame)
    requires IsPrepared(!server, f) && !IsControl(f.h.opcode)
    ensures var a := AfterFrame(Between(server, maxSize, None), f);
            if !HasPlace(None, maxSize, f) then a.phase.Failed?
            else if f.h.fin then
              a.phase.Ready? && Ripe(a) == Completed(None, f) && Taken(a) == Between(server, maxSize, None)
            else a == Between(server, maxSize, StillUnderWay(None, f))
  {
    assert [] + f.data == f.data;
    hide U.IsUtf8, U.IsUtf8Prefix;
    if U.IsUtf8(f.data) {
      WholeIsPrefix(f.data);
    }
    var s := Start(server, maxSize);
    if HasPlace(None, maxSize, f) {
      assert FrameError(s, f.h) == None;
      hide FrameError;
      assert Begin(s, f.h) == s.(data := Some(Message(f.h.opcode, [])), phase := Payload(f.h, 0));
    }
  }

  lemma NextIsRead(server: bool, maxSize: nat, m: Message, f: Frame)
    requires IsPrepared(!server, f) && !IsControl(f.h.opcode)
    ensures var a := AfterFrame(Between(server, maxSize, Some(m)), f);
            if !HasPlace(Some(m), maxSize, f) then a.phase.Failed?
            else if f.h.fin then
              a.phase.Ready? && Ripe(a) == Completed(Some(m), f) && Taken(a) == Between(server, maxSize, None)
            else a == Between(server, maxSize, StillUnderWay(Some(m), f))
  {
    hide U.IsUtf8, U.IsUtf8Prefix;
  }

  /** What one side prepares without an error, the other side receives without an error if and only if every
      frame has its place; it then delivers the messages that the frames complete. */
  lemma {:induction false} PreparedIsRead(server: bool, maxSize: nat, underWay: Option<Message>, fs: seq<Frame>)
    requires forall k | 0 <= k < |fs| :: IsPrepared(!server, fs[k])
    ensures var d := DeliverFrames(Between(server, maxSize, underWay), fs);
            && (d.end.phase.Failed? <==> !IsOrderly(underWay, maxSize, fs))
            && (!d.end.phase.Failed? ==> d.messages == AllCompleted(underWay, fs))
    decreases |fs|
  {
    hide IsPrepared, AfterFrame, HasPlace, Ripe;
    if fs != [] {
      var f, s := fs[0], Between(server, maxSize, underWay);
      assert IsPrepared(!server, f);
      PlaceIsRead(server, maxSize, underWay, f);
      if HasPlace(underWay, maxSize, f) {
        PreparedIsRead(server, maxSize, StillUnderWay(underWay, f), fs[1..]);
        var more := AllCompleted(StillUnderWay(underWay, f), fs[1..]);
        assert [] + more == more;
      }
    }
  }

  lemma PlaceIsRead(server: bool, maxSize: nat, underWay: Option<Message>, f: Frame)
    requires IsPrepared(!server, f)
    ensures var a, next := AfterFrame(Between(server, maxSize, underWay), f), StillUnderWay(underWay, f);
            if !HasPlace(underWay, maxSize, f) then a.phase.Failed?
            else if a.phase.Ready? then Ripe(a) == Completed(underWay, f) && Taken(a) == Between(server, maxSize, next)
            else a == Between(server, maxSize, next) && Completed(underWay, f) == []
  {
    hide IsPrepared, AfterFrame, Ripe;
    if IsControl(f.h.opcode) {
      ControlIsRead(server, maxSize, underWay, f);
    } else {
      match underWay
      case None => FirstIsRead(server, maxSize, f);
      case Some(m) => NextIsRead(server, maxSize, m, f);
    }
  }

  /** Close, ping and pong frames of at most 125 bytes are delivered at once, whatever data message is under way,
      and that stays as it was. */
  lemma ControlArrives(server: bool, maxSize: nat, underWay: Option<Message>, op: Opcode, data: seq<byte>, size: word,
                       key: Key)
    requires IsSizeOf(size, data) && |data| <= 125 && (op == 0x8 || op == 0x9 || op == 0xA)
    ensures var a := AfterFrame(Between(server, maxSize, underWay), FrameFor(!server, op, true, data, size, key));
            && a.phase == Ready(true) && a.data == underWay && a.control == Some(Message(op, data))
            && Ripe(a) == [Message(op, data)] && Taken(a) == Between(server, maxSize, underWay)
  {
    OpcodesInUse(op);
    assert [] + data == data;
    hide U.IsUtf8, U.IsUtf8Prefix, IsReserved, IsControl;
  }

  /** Data frames with reserved opcodes are prepared without an error, and are never received. */
  lemma ReservedIsPrepared(server: bool, maxSize: nat, op: Opcode)
    requires 3 <= op <= 7
    ensures var f := FrameFor(server, op, true, [], 0, [0, 0, 0, 0]);
            IsPrepared(server, f) && AfterFrame(Start(!server, maxSize), f).phase == Failed(InvalidOpcode)
  {
  }

  lemma PreparedIsValid(server: bool, fs: seq<Frame>)
    requires forall k | 0 <= k < |fs| :: IsPrepared(server, fs[k])
    ensures forall k | 0 <= k < |fs| :: fs[k].Valid()
  {
    hide U.IsUtf8;
  }

  /** Whatever frames one side sends, all prepared without an error, arrive on the other side, however the
      network cuts their bytes, if and only if every frame has its place. */
  method SendAndReceive(server: bool, maxSize: nat, ghost fs: seq<Frame>, chunks: seq<seq<byte>>)
    returns (messages: seq<Message>, error: Option<Error>)
    requires forall k | 0 <= k < |fs| :: IsPrepared(server, fs[k])
    requires S.Flatten(chunks) == Wires(fs)
    ensures error == None <==> IsOrderly(None, maxSize, fs)
    ensures error == None ==> messages == AllCompleted(None, fs)
  {
    hide Deliver, DeliverFrames, IsPrepared, IsOrderly, Wires;
    var start := Start(!server, maxSize);
    assert Between(!server, maxSize, None) == start;
    PreparedIsRead(!server, maxSize, None, fs);
    PreparedIsValid(server, fs);
    DeliversFrames(start, fs);
    messages, error := P.Receive(!server, maxSize, chunks);
  }

  /** What one side prepares as a whole message, the other side delivers as that message. */
  lemma PreparedIsDelivered(server: bool, maxSize: nat, op: Opcode, data: seq<byte>, size: word, key: Key)
    requires IsSizeOf(size, data) && |data| <= maxSize
    requires (op == TEXT || op == BINARY) && (op == TEXT ==> U.IsUtf8(data))
    ensures Deliver(Start(!server, maxSize), FrameFor(server, op, true, data, size, key).Wire())
            == Delivered([Message(op, data)], Start(!server, maxSize))
  {
    hide U.IsUtf8, U.IsUtf8Prefix, Deliver, DeliverFrames, Encode, Unmasked;
    var f := FrameFor(server, op, true, data, size, key);
    var fs := [f];
    var none: seq<Frame> := [];
    assert fs[1..] == none && Wires(none) == [];
    assert Wires(fs) == f.Wire() + [];
    assert f.Wire() + [] == f.Wire();
    assert DataOf(none) == [] && data + [] == data;
    assert DataOf(fs) == data && ControlsOf(fs) == [];
    assert MessagesOf(fs) == [Message(op, data)];
    MessageDelivered(!server, maxSize, fs);
    DeliversFrames(Start(!server, maxSize), fs);
  }

  /** A whole message in one frame has its place, if it is within the limit. */
  lemma WholeMessageArrives(server: bool, maxSize: nat, op: Opcode, data: seq<byte>, size: word, key: Key)
    requires IsSizeOf(size, data)
    requires (op == TEXT || op == BINARY) && (op == TEXT ==> U.IsUtf8(data))
    ensures var fs := [FrameFor(server, op, true, data, size, key)];
            && IsPrepared(server, fs[0]) && AllCompleted(None, fs) == [Message(op, data)]
            && (IsOrderly(None, maxSize, fs) <==> |data| <= maxSize)
  {
    var fs := [FrameFor(server, op, true, data, size, key)];
    assert fs[1..] == [];
    hide U.IsUtf8, U.IsUtf8Prefix;
  }
}
