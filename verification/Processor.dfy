/** The receiving state machine of a WebSocket connection. It is fed whatever bytes the network yields,
    copies, unmasks and validates them in bulk, and does what the bytes mean one by one. */
module Processor {
  import opened Options
  import opened Words
  import opened Masking
  import opened FrameHeader
  import opened Session
  import S = Sequences
  import U = Utf8Spec
  import V = Utf8Validator

  datatype State = HeaderBasic | HeaderExtended | Application | MessageReady

  /** The buffer, masking key and validation state of a message being received. */
  class Metadata {
    var active: bool
    var opcode: Opcode
    var payload: seq<byte>
    var preparedKey: word
    const validator: V.Validator

    ghost predicate Valid()
      reads this, validator
    {
      validator.Valid() && (active && opcode == TEXT ==> validator.input == payload)
    }

    ghost function Value(): Option<Message>
      reads this
    {
      if active then Some(Message(opcode, payload)) else None
    }

    constructor ()
      ensures Valid() && !active && fresh(validator)
    {
      active, opcode, payload, preparedKey := false, CONTINUATION, [], 0;
      validator := new V.Validator();
    }

    method Begin(op: Opcode, key: Key)
      modifies this, validator
      ensures Valid() && Value() == Some(Message(op, [])) && Prepared(preparedKey, key, 0)
    {
      hide Prepared, PrepareMaskingKey;
      active, opcode, payload := true, op, [];
      preparedKey := PrepareMaskingKey(key);
      PreparedAtStart(key);
      validator.Reset();
    }

    /** Each frame starts a new masking key; the message goes on. */
    method Continue(key: Key)
      modifies `preparedKey
      ensures Prepared(preparedKey, key, 0)
    {
      hide Prepared, PrepareMaskingKey;
      preparedKey := PrepareMaskingKey(key);
      PreparedAtStart(key);
    }
  }

  /** The fields of a header that later steps look up in its two fixed bytes again. */
  ghost predicate HoldsFields(h: Header, b0: byte, b1: byte) {
    h.fin == ((b0 & 0x80) == 0x80) && h.opcode == OpcodeOf(b0) && h.key.Some? == IsMasked(b1)
  }

  class Processor {
    const server: bool
    const maxMessageSize: nat
    const basic: BasicHeader
    const extended: ExtendedHeader
    const dataMsg: Metadata
    const controlMsg: Metadata
    var state: State
    var bytesNeeded: nat
    var cursor: nat
    var current: Metadata
    /** The header of the frame whose payload is read, and how much of the payload is read. */
    ghost var header: Header
    ghost var read: nat

    ghost function Repr(): set<object> {
      {this, basic, extended.bytes, dataMsg, dataMsg.validator, controlMsg, controlMsg.validator}
    }

    ghost predicate Valid()
      reads Repr()
    {
      && extended.bytes.Length == 12 && MessagesValid()
      && match state
         case HeaderBasic => 1 <= bytesNeeded <= 2
         case HeaderExtended =>
           cursor + bytesNeeded == HeaderLength(basic.b1) - 2 && (OpcodeOf(basic.b0) == TEXT ==> !dataMsg.active)
         case Application => AwaitsRest(read, bytesNeeded)
         case MessageReady => (current == dataMsg || current == controlMsg) && current.active
    }

    /** A payload of which n bytes are read and so many are left. */
    ghost predicate AwaitsRest(n: nat, left: nat)
      reads this, basic, dataMsg, controlMsg
    {
      && n + left == SizeOf(header) && HoldsFields(header, basic.b0, basic.b1)
      && current == MessageFor(header.opcode) && current.active
      && (header.opcode == TEXT ==> current.opcode == TEXT)
      && (header.key.Some? ==> Prepared(current.preparedKey, header.key.value, n))
    }

    ghost predicate MessagesValid()
      reads dataMsg, dataMsg.validator, controlMsg, controlMsg.validator
    {
      && dataMsg != controlMsg && dataMsg.validator != controlMsg.validator
      && dataMsg.Valid() && (dataMsg.active ==> !IsControl(dataMsg.opcode))
      && controlMsg.Valid() && (controlMsg.active ==> IsControl(controlMsg.opcode))
    }

    ghost function MessageFor(op: Opcode): Metadata {
      if IsControl(op) then controlMsg else dataMsg
    }

    /** The session with its messages as they stand, in a phase. */
    ghost function In(phase: Phase): Session
      reads dataMsg, controlMsg
    {
      Session(server, maxMessageSize, dataMsg.Value(), controlMsg.Value(), phase)
    }

    /** The session as it stands, perhaps with a phase that needs no more bytes. */
    ghost function Raw(): Session
      requires Valid()
      reads Repr()
    {
      In(match state
         case HeaderBasic => Basic(if bytesNeeded == 2 then [] else [basic.b0])
         case HeaderExtended => Extended(basic.b0, basic.b1, extended.bytes[..cursor])
         case Application => Payload(header, read)
         case MessageReady => Ready(current == controlMsg))
    }

    /** The processor waits for bytes, or has a message ready. */
    ghost predicate Waiting()
      reads this
    {
      state == MessageReady || bytesNeeded > 0
    }

    constructor (server: bool, maxMessageSize: nat)
      ensures Valid() && Waiting() && Raw() == Start(server, maxMessageSize)
      ensures fresh(Repr())
    {
      this.server, this.maxMessageSize := server, maxMessageSize;
      basic := new BasicHeader(0, 0);
      extended := new ExtendedHeader(0, None);
      dataMsg := new Metadata();
      controlMsg := new Metadata();
      current := dataMsg;
      state, bytesNeeded, cursor, read := HeaderBasic, 2, 0, 0;
      header := Header(false, false, false, false, CONTINUATION, 0, None);
    }

    method ResetHeaders()
      requires extended.bytes.Length == 12
      modifies `state, `bytesNeeded, basic, extended.bytes
      ensures state == HeaderBasic && bytesNeeded == 2
      ensures basic.b0 == basic.b1 == 0x00 && extended.bytes[..] == seq(12, _ => 0x00)
    {
      state, bytesNeeded := HeaderBasic, 2;
      basic.b0, basic.b1 := 0x00, 0x00;
      forall k | 0 <= k < 12 {
        extended.bytes[k] := 0x00;
      }
    }

    // ----- the two fixed bytes -----

    /** Reads bytes into the basic header and returns how many. */
    method CopyBasicHeaderBytes(buf: array<byte>, at: nat, end: nat) returns (k: nat)
      requires 1 <= bytesNeeded <= 2 && at < end <= buf.Length
      modifies `bytesNeeded, basic
      ensures 1 <= k <= end - at && bytesNeeded == old(bytesNeeded) - k
      ensures (if old(bytesNeeded) == 2 then [] else old([basic.b0])) + buf[at..at + k]
              == if bytesNeeded == 0 then [basic.b0, basic.b1] else [basic.b0]
      ensures bytesNeeded > 0 ==> k == end - at
    {
      if end - at > 1 {
        if bytesNeeded == 2 {
          basic.b0 := buf[at];
          basic.b1 := buf[at + 1];
          bytesNeeded := bytesNeeded - 2;
          return 2;
        } else {
          basic.b1 := buf[at];
          bytesNeeded := bytesNeeded - 1;
          return 1;
        }
      } else {
        if bytesNeeded == 2 {
          basic.b0 := buf[at];
          bytesNeeded := bytesNeeded - 1;
          return 1;
        } else {
          basic.b1 := buf[at];
          bytesNeeded := bytesNeeded - 1;
          return 1;
        }
      }
    }

    method ValidateIncomingBasicHeader(newMsg: bool) returns (e: Option<Error>)
      ensures e == BasicError(server, newMsg, basic.b0, basic.b1)
    {
      hide IsReserved;
      var op := basic.GetOpcode();
      assert op == OpcodeOf(basic.b0);
      if IsControl(op) && basic.GetBasicSize() > 125 {
        return Some(ControlTooBig);
      }
      if basic.GetRsv1() {
        return Some(InvalidRsvBit);
      }
      if basic.GetRsv2() || basic.GetRsv3() {
        return Some(InvalidRsvBit);
      }
      if IsReserved(op) {
        return Some(InvalidOpcode);
      }
      if IsControl(op) && !basic.GetFin() {
        return Some(FragmentedControl);
      }
      if newMsg && op == CONTINUATION {
        return Some(InvalidContinuation);
      }
      if !newMsg && !IsControl(op) && op != CONTINUATION {
        return Some(InvalidContinuation);
      }
      if server && !basic.GetMasked() {
        return Some(MaskingRequired);
      } else if !server && basic.GetMasked() {
        return Some(MaskingForbidden);
      }
      return None;
    }

    method StepBasic(buf: array<byte>, at: nat, end: nat) returns (r: Result<nat, Error>)
      requires Valid() && state == HeaderBasic && at < end <= buf.Length && buf !in Repr()
      modifies `state, `bytesNeeded, `cursor, basic
      ensures var onward := Run(Settle(old(Raw())), buf[at..end]);
              match r
              case Err(e) => onward.end.phase == Failed(e)
              case Ok(k) => && 1 <= k <= end - at && Valid() && onward == Run(Settle(Raw()), buf[at + k..end])
                            && (state == HeaderExtended || (state == HeaderBasic && at + k == end))
    {
      hide Run, Settle, BasicError, HeaderLength, MessagesValid, AwaitsRest;
      ghost var s := Raw();
      var k := CopyBasicHeaderBytes(buf, at, end);
      ghost var chunk, rest := buf[at..at + k], buf[at + k..end];
      assert buf[at..end] == chunk + rest;
      RunBasic(s, s.phase.got, chunk, rest);
      if bytesNeeded > 0 {
        return Ok(k);
      }
      BasicCompletes(s.(phase := Basic([basic.b0, basic.b1])), basic.b0, basic.b1, rest);
      var e := ValidateIncomingBasicHeader(!dataMsg.active);
      if e.Some? {
        return Err(e.value);
      }
      if basic.GetOpcode() == TEXT {
        TextStartsMessage(server, !dataMsg.active, basic.b0, basic.b1);
      }
      state := HeaderExtended;
      cursor := 0;
      bytesNeeded := basic.GetHeaderLen() - 2;
      assert extended.bytes[..0] == [];
      return Ok(k);
    }

    // ----- the rest of the header -----

    /** Reads bytes into the extended header and returns how many. */
    method CopyExtendedHeaderBytes(buf: array<byte>, at: nat, end: nat) returns (k: nat)
      requires extended.bytes.Length == 12 && cursor + bytesNeeded <= 12
      requires at <= end <= buf.Length && buf != extended.bytes
      modifies `bytesNeeded, `cursor, extended.bytes
      ensures k == (if bytesNeeded == 0 then old(bytesNeeded) else end - at) <= end - at
      ensures bytesNeeded == old(bytesNeeded) - k && cursor == old(cursor) + k
      ensures extended.bytes[..cursor] == old(extended.bytes[..cursor]) + buf[at..at + k]
    {
      k := if bytesNeeded < end - at then bytesNeeded else end - at;
      S.Write(extended.bytes, cursor, buf[at..at + k]);
      cursor := cursor + k;
      bytesNeeded := bytesNeeded - k;
    }

    method ValidateIncomingExtendedHeader() returns (e: Option<Error>)
      requires extended.bytes.Length == 12
      ensures e == if IsNonMinimal(basic.b1, PayloadSize(basic.b1, extended.bytes[..])) then Some(NonMinimalEncoding)
                   else None
    {
      hide PayloadSize, BasicSize;
      var basicSize := basic.GetBasicSize();
      var payloadSize := GetPayloadSize(basic, extended);
      if basicSize == 0x7E && payloadSize <= 125 {
        return Some(NonMinimalEncoding);
      }
      if basicSize == 0x7F && payloadSize <= 0xFFFF {
        return Some(NonMinimalEncoding);
      }
      return None;
    }

    /** Sets up the message that a frame begins or goes on with. */
    method BeginMessage(ghost h: Header, op: Opcode, key: Key, size: nat) returns (e: Option<Error>)
      requires MessagesValid() && op == h.opcode && size == SizeOf(h) && (op == TEXT ==> !dataMsg.active)
      modifies `current, dataMsg, dataMsg.validator, controlMsg, controlMsg.validator
      ensures match e
              case Some(error) => Begin(old(In(Basic([]))), h).phase == Failed(error)
              case None => && MessagesValid() && In(Payload(h, 0)) == Begin(old(In(Basic([]))), h)
                           && current == MessageFor(op) && current.active && Prepared(current.preparedKey, key, 0)
                           && (op == TEXT ==> current.opcode == TEXT)
    {
      hide Prepared, IsControl, SizeOf;
      if IsControl(op) {
        controlMsg.Begin(op, key);
        current := controlMsg;
      } else {
        if !dataMsg.active {
          if size > maxMessageSize {
            return Some(MessageTooBig);
          }
          dataMsg.Begin(op, key);
        } else {
          if (|dataMsg.payload| + size) % 0x1_0000_0000_0000_0000 > maxMessageSize {
            return Some(MessageTooBig);
          }
          dataMsg.Continue(key);
        }
        current := dataMsg;
      }
      return None;
    }

    /** A complete header begins a frame. */
    method BeginFrame(ghost h: Header) returns (e: Option<Error>)
      requires Valid() && state == HeaderExtended
      requires h.size == PayloadSize(basic.b1, extended.bytes[..]) && HoldsFields(h, basic.b0, basic.b1)
      requires h.key == MaskingKey(basic.b1, extended.bytes[..])
      modifies this, dataMsg, dataMsg.validator, controlMsg, controlMsg.validator
      ensures match e
              case Some(error) => Begin(old(Raw()), h).phase == Failed(error)
              case None => Valid() && state == Application && Raw() == Begin(old(Raw()), h)
    {
      hide Begin, IsControl, MaskingKey, PayloadSize, Prepared, OpcodeOf, IsMasked,
           HeaderLength, MessagesValid, MessageFor;
      assert Begin(Raw(), h) == Begin(In(Basic([])), h) by {
        BeginForgetsPhase(In(Basic([])), Raw().phase, h);
      }
      var size := GetPayloadSize(basic, extended);
      var op := basic.GetOpcode();
      var key := GetMaskingKey(basic, extended);
      assert size as nat == SizeOf(h);
      hide SizeOf, In, HoldsFields;
      e := BeginMessage(h, op, key, size as nat);
      if e.None? {
        AwaitPayload(size as nat, h);
      }
    }

    /** The payload of a frame is next. */
    method AwaitPayload(size: nat, ghost h: Header)
      requires extended.bytes.Length == 12 && MessagesValid()
      requires size == SizeOf(h) && HoldsFields(h, basic.b0, basic.b1)
      requires current == MessageFor(h.opcode) && current.active && (h.opcode == TEXT ==> current.opcode == TEXT)
      requires h.key.Some? ==> Prepared(current.preparedKey, h.key.value, 0)
      modifies `state, `bytesNeeded, `header, `read
      ensures Valid() && state == Application && Raw() == In(Payload(h, 0)) == old(In(Payload(h, 0)))
    {
      hide MessagesValid, Prepared, HoldsFields, SizeOf, MessageFor;
      state, bytesNeeded := Application, size;
      header, read := h, 0;
    }

    method StepExtended(buf: array<byte>, at: nat, end: nat) returns (r: Result<nat, Error>)
      requires Valid() && state == HeaderExtended && at <= end <= buf.Length && buf !in Repr()
      requires at < end || bytesNeeded == 0
      modifies this, extended.bytes, dataMsg, dataMsg.validator, controlMsg, controlMsg.validator
      ensures var onward := Run(Settle(old(Raw())), buf[at..end]);
              match r
              case Err(e) => onward.end.phase == Failed(e)
              case Ok(k) => && k <= end - at && Valid() && onward == Run(Settle(Raw()), buf[at + k..end])
                            && if state == HeaderExtended then 0 < k && at + k == end && bytesNeeded > 0
                               else state == Application
    {
      hide Run, Settle, Begin, HeaderLength, IsNonMinimal, PayloadSize, MaskingKey, MessagesValid, HoldsFields, Decode;
      ghost var s := Raw();
      ghost var b0, b1 := basic.b0, basic.b1;
      var k := CopyExtendedHeaderBytes(buf, at, end);
      ghost var chunk, rest := buf[at..at + k], buf[at + k..end];
      assert buf[at..end] == chunk + rest;
      RunExtended(s, b0, b1, s.phase.got, chunk, rest);
      if bytesNeeded > 0 {
        return Ok(k);
      }
      ghost var e := extended.bytes[..cursor];
      ExtendedCompletes(s.(phase := Extended(b0, b1, e)), b0, b1, e, extended.bytes[..], rest);
      var error := ValidateIncomingExtendedHeader();
      if error.Some? {
        return Err(error.value);
      }
      error := BeginFrame(Decode([b0, b1] + e));
      if error.Some? {
        return Err(error.value);
      }
      return Ok(k);
    }

    // ----- payloads -----

    /** Unmasks payload bytes in place, if the frame is masked. */
    method UnmaskPayload(buf: array<byte>, at: nat, length: nat)
      requires Valid() && state == Application && at + length <= buf.Length && buf !in Repr()
      modifies current`preparedKey, buf
      ensures buf[at..at + length] == Unmasked(header, read, old(buf[at..at + length]))
      ensures buf[at + length..] == old(buf[at + length..])
      ensures header.key.Some? ==> Prepared(current.preparedKey, header.key.value, read + length)
      ensures MessagesValid()
    {
      hide Prepared, HeaderLength, IsControl, IsMasked, OpcodeOf, Masked, SizeOf;
      if basic.GetMasked() {
        current.preparedKey := WordMaskCirc(buf, at, buf, at, length, current.preparedKey, header.key.value, read);
      }
    }

    /** Appends unmasked bytes to the message and, in a text, validates them. */
    method AppendPayload(ghost op: Opcode, bytes: seq<byte>) returns (e: Option<Error>)
      requires MessagesValid() && current == MessageFor(op) && current.active && bytes != []
      modifies current`payload, current.validator
      ensures var m := old(current.Value()).value;
              var m' := m.(payload := m.payload + bytes);
              if m.opcode == TEXT && !U.IsUtf8Prefix(m'.payload) then e == Some(InvalidUtf8)
              else e == None && MessagesValid() && current.Value() == Some(m')
                   && In(Basic([])) == old(In(Basic([]))).With(op, m')
    {
      hide IsControl, U.IsUtf8Prefix;
      current.payload := current.payload + bytes;
      if current.opcode == TEXT {
        var hopeful := current.validator.Decode(bytes);
        if !hopeful {
          return Some(InvalidUtf8);
        }
      }
      return None;
    }

    method ProcessPayloadBytes(buf: array<byte>, at: nat, length: nat) returns (e: Option<Error>)
      requires Valid() && state == Application && 0 < length <= bytesNeeded
      requires at + length <= buf.Length && buf !in Repr()
      modifies `bytesNeeded, `read, current, current.validator, buf
      ensures buf[at + length..] == old(buf[at + length..]) && bytesNeeded == old(bytesNeeded) - length
      ensures var added := AddPayload(old(Raw()), header, old(read), old(buf[at..at + length]));
              match e
              case Some(error) => added.phase == Failed(error)
              case None => Valid() && Raw() == added
    {
      hide Prepared, HeaderLength, IsControl, U.IsUtf8Prefix, IsMasked, OpcodeOf,
           Unmasked, SizeOf, MessagesValid, MessageFor;
      CurrentIs();
      UnmaskPayload(buf, at, length);
      hide HoldsFields;
      e := AppendPayload(header.opcode, buf[at..at + length]);
      Advance(length);
    }

    /** So much more of the payload is read. */
    method Advance(length: nat)
      requires length <= bytesNeeded && extended.bytes.Length == 12 && state == Application
      modifies `bytesNeeded, `read
      ensures bytesNeeded == old(bytesNeeded) - length && read == old(read) + length
      ensures old(MessagesValid() && AwaitsRest(read + length, bytesNeeded - length)) ==>
                Valid() && Raw() == old(In(Payload(header, read + length)))
    {
      hide MessagesValid, Prepared, HoldsFields, SizeOf, MessageFor;
      bytesNeeded := bytesNeeded - length;
      read := read + length;
    }

    lemma CurrentIs()
      requires MessagesValid() && state == Application && current == MessageFor(header.opcode)
      ensures In(Payload(header, read)).Current(header.opcode) == current.Value()
      ensures current in {dataMsg, controlMsg}
    {
    }

    /** The whole payload is read. */
    method FinishFrame() returns (e: Option<Error>)
      requires Valid() && state == Application && bytesNeeded == 0
      modifies `state, `bytesNeeded, basic, extended.bytes
      ensures var done := FrameDone(old(Raw()), header);
              match e
              case Some(error) => done.phase == Failed(error)
              case None => Valid() && Raw() == done && (state == HeaderBasic || state == MessageReady)
    {
      hide U.IsUtf8, IsMasked, HeaderLength, IsControl;
      if basic.GetFin() {
        if basic.GetOpcode() == TEXT {
          var complete := current.validator.Complete();
          if !complete {
            return Some(InvalidUtf8);
          }
        }
        state := MessageReady;
      } else {
        ResetHeaders();
      }
      return None;
    }

    method StepApplication(buf: array<byte>, at: nat, end: nat) returns (r: Result<nat, Error>)
      requires Valid() && state == Application && at <= end <= buf.Length && buf !in Repr()
      requires at < end || bytesNeeded == 0
      modifies this, basic, extended.bytes, current, current.validator, buf
      ensures var onward := Run(Settle(old(Raw())), old(buf[at..end]));
              match r
              case Err(e) => onward.end.phase == Failed(e)
              case Ok(k) => && k <= end - at && Valid() && onward == Run(Settle(Raw()), buf[at + k..end])
                            && buf[at + k..] == old(buf[at + k..])
                            && if state == Application then 0 < k && at + k == end && bytesNeeded > 0
                               else state == HeaderBasic || state == MessageReady
    {
      hide Run, Settle, FrameDone, AddPayload, HeaderLength, MessagesValid, HoldsFields, Prepared, SizeOf;
      ghost var h, s, n, rest := header, Raw(), read, buf[at..end];
      var k := if bytesNeeded < end - at then bytesNeeded else end - at;
      CurrentIs();
      if k > 0 {
        ghost var chunk := buf[at..at + k];
        rest := buf[at + k..end];
        assert buf[at..end] == chunk + rest;
        PayloadWaits(s, h, n);
        RunPayload(s, h, n, chunk, rest);
        var e := ProcessPayloadBytes(buf, at, k);
        if e.Some? {
          return Err(e.value);
        }
        assert buf[at + k..end] == buf[at + k..][..end - at - k] == rest;
      }
      if bytesNeeded > 0 {
        return Ok(k);
      }
      PayloadCompletes(Raw(), h, read, rest);
      var e := FinishFrame();
      if e.Some? {
        return Err(e.value);
      }
      return Ok(k);
    }

    // ----- consuming -----

    /** How many steps without bytes may still follow. */
    ghost function StepsLeft(): nat
      reads this
    {
      match state case HeaderBasic => 0 case HeaderExtended => 2 case Application => 1 case MessageReady => 0
    }

    /** One turn of the loop: the bytes taken and the bytes left mean what they meant together. */
    method Step(buf: array<byte>, at: nat, end: nat) returns (r: Result<nat, Error>)
      requires Valid() && state != MessageReady && at <= end <= buf.Length && buf !in Repr()
      requires at < end || bytesNeeded == 0
      modifies Repr(), buf
      ensures var onward := Run(Settle(old(Raw())), old(buf[at..end]));
              match r
              case Err(e) => onward.end.phase == Failed(e)
              case Ok(k) => && k <= end - at && Valid() && onward == Run(Settle(Raw()), buf[at + k..end])
                            && buf[at + k..] == old(buf[at + k..])
                            && (state == HeaderBasic ==> bytesNeeded > 0)
                            && (k > 0 || StepsLeft() < old(StepsLeft()))
    {
      hide Run, Settle, HeaderLength, MessagesValid, HoldsFields, Prepared, SizeOf, IsControl, Raw;
      if state == HeaderBasic {
        r := StepBasic(buf, at, end);
      } else if state == HeaderExtended {
        r := StepExtended(buf, at, end);
      } else {
        r := StepApplication(buf, at, end);
      }
    }

    /** Processes the bytes buf[start..end] until a message is ready, and returns how many it processed;
        whatever their number, the effect is what they mean one by one. */
    method Consume(buf: array<byte>, start: nat, end: nat) returns (r: Result<nat, Error>)
      requires Valid() && Waiting() && start <= end <= buf.Length && buf !in Repr()
      modifies Repr(), buf
      ensures var run := Run(old(Raw()), old(buf[start..end]));
              match r
              case Err(e) => run.end.phase == Failed(e)
              case Ok(p) => && p <= end - start && Valid() && Waiting() && Raw() == run.end
                            && run.rest == buf[start + p..end] && buf[start + p..] == old(buf[start + p..])
    {
      hide Run, Settle, HeaderLength, MessagesValid, HoldsFields, Prepared, SizeOf, IsControl, Raw, StepsLeft;
      var p := start;
      ghost var before := buf[..];
      Settled();
      while state != MessageReady && (p < end || bytesNeeded == 0)
        invariant start <= p <= end && Valid() && buf[p..] == before[p..]
        invariant state == HeaderBasic ==> bytesNeeded > 0
        invariant Run(Settle(Raw()), buf[p..end]) == Run(old(Raw()), old(buf[start..end]))
        decreases end - p, StepsLeft()
      {
        var step := Step(buf, p, end);
        if step.Err? {
          return Err(step.error);
        }
        p := p + step.value;
        assert before[p - step.value..][step.value..] == before[p..];
      }
      Settled();
      EndOfRun(Raw(), buf[p..end]);
      return Ok(p - start);
    }

    /** A processor that waits for bytes has settled. */
    lemma Settled()
      requires Valid() && Waiting()
      ensures Settle(Raw()) == Raw() && Raw().phase.Ready? == (state == MessageReady) && !Raw().phase.Failed?
    {
      hide MessagesValid, HoldsFields, Prepared, IsControl;
    }

    // ----- messages -----

    /** Hands out the message that is ready and prepares for the next frame. */
    method GetMessage() returns (m: Option<Message>)
      requires Valid() && Waiting()
      modifies this, basic, extended.bytes, dataMsg, controlMsg
      ensures Valid() && Waiting()
      ensures old(state) != MessageReady ==> m == None && Raw() == old(Raw())
      ensures old(state) == MessageReady ==> m.Some? && Ripe(old(Raw())) == [m.value] && Raw() == Taken(old(Raw()))
    {
      hide HeaderLength, HoldsFields, Prepared, SizeOf, IsControl;
      if state != MessageReady {
        return None;
      }
      m := Some(Message(current.opcode, current.payload));
      if IsControl(current.opcode) {
        controlMsg.active := false;
      } else {
        dataMsg.active := false;
      }
      ResetHeaders();
    }
  }

  lemma TextStartsMessage(server: bool, newMessage: bool, b0: byte, b1: byte)
    requires BasicError(server, newMessage, b0, b1).None? && OpcodeOf(b0) == TEXT
    ensures newMessage
  {
  }

  lemma BasicCompletes(s: Session, b0: byte, b1: byte, rest: seq<byte>)
    requires s.phase == Basic([b0, b1])
    ensures match BasicError(s.server, s.data.None?, b0, b1)
            case Some(e) => Run(Settle(s), rest).end.phase == Failed(e)
            case None => Settle(s) == Settle(s.(phase := Extended(b0, b1, [])))
  {
    hide BasicError, HeaderLength, Begin, FrameDone, IsNonMinimal, Decode;
  }

  lemma SizeFromFront(b1: byte, e: seq<byte>, all: seq<byte>)
    requires |e| == HeaderLength(b1) - 2 && e <= all
    ensures PayloadSize(b1, all) == PayloadSize(b1, e) && MaskingKey(b1, all) == MaskingKey(b1, e)
  {
    hide BasicSize, Size64, Size16, IsMasked;
    var offset := MaskingKeyOffset(b1);
    if offset == 8 {
      assert all[..8] == e[..8];
    }
    if IsMasked(b1) {
      assert all[offset..offset + 4] == e[offset..offset + 4];
    }
  }

  lemma ExtendedCompletes(s: Session, b0: byte, b1: byte, e: seq<byte>, all: seq<byte>, rest: seq<byte>)
    requires s.phase == Extended(b0, b1, e) && |e| == HeaderLength(b1) - 2 && e <= all
    ensures |[b0, b1] + e| == HeaderLength(([b0, b1] + e)[1])
    ensures var h := Decode([b0, b1] + e);
            && h.size == PayloadSize(b1, all) && h.key == MaskingKey(b1, all) && HoldsFields(h, b0, b1)
            && if IsNonMinimal(b1, PayloadSize(b1, all)) then
                 Run(Settle(s), rest).end.phase == Failed(NonMinimalEncoding)
               else Settle(s) == Settle(Begin(s, h))
                    && (Begin(s, h).phase.Failed? ==> Run(Settle(s), rest).end.phase == Begin(s, h).phase)
  {
    hide HeaderLength, Begin, FrameDone, IsNonMinimal, PayloadSize, BasicSize;
    SizeFromFront(b1, e, all);
    var b := [b0, b1] + e;
    assert b[2..] == e;
  }

  lemma PayloadCompletes(s: Session, h: Header, n: nat, rest: seq<byte>)
    requires s.phase == Payload(h, n) && n == SizeOf(h)
    ensures var done := FrameDone(s, h);
            Settle(s) == done && Settle(done) == done && (done.phase.Failed? ==> Run(done, rest).end == done)
  {
    hide SizeOf, U.IsUtf8;
  }

  lemma EndOfRun(s: Session, bytes: seq<byte>)
    requires bytes == [] || s.phase.Ready?
    ensures Run(s, bytes) == Ran(s, bytes)
  {
  }

  function Taking(m: Option<Message>): seq<Message> {
    match m case Some(message) => [message] case None => []
  }

  /** Feeds bytes until a message is ready or they are used up, and takes the message. */
  method ReceiveOne(p: Processor, buf: array<byte>, at: nat) returns (r: Result<nat, Error>, m: Option<Message>)
    requires p.Valid() && p.Waiting() && p.state != MessageReady && at < buf.Length && buf !in p.Repr()
    modifies p.Repr(), buf
    ensures var all := Deliver(old(p.Raw()), old(buf[at..]));
            match r
            case Err(e) => all.messages == [] && all.end.phase == Failed(e)
            case Ok(k) => && 0 < k <= buf.Length - at && p.Valid() && p.Waiting() && p.state != MessageReady
                          && var d := Deliver(p.Raw(), buf[at + k..]);
                             all == After(Taking(m), d)
  {
    hide Run, Settle, Deliver, Ripe, Taken;
    ghost var s, bytes := p.Raw(), buf[at..];
    p.Settled();
    assert buf[at..buf.Length] == bytes;
    DeliverIs(s, bytes);
    RestShrinks(s, bytes);
    RunAppend(s, bytes, []);
    m := None;
    r := p.Consume(buf, at, buf.Length);
    if r.Ok? {
      p.Settled();
      ghost var done, rest := p.Raw(), buf[at + r.value..];
      assert buf[at + r.value..buf.Length] == rest;
      if p.state != MessageReady {
        NothingDelivered(done);
      }
      m := p.GetMessage();
      p.Settled();
      TakenReads(done);
    }
  }

  lemma TakenReads(s: Session)
    ensures s.phase.Ready? ==> Taken(s).Reading()
  {
  }

  /** Feeds a chunk to a processor, taking each message as it becomes ready. */
  method ReceiveChunk(p: Processor, chunk: seq<byte>) returns (messages: seq<Message>, error: Option<Error>)
    requires p.Valid() && p.Waiting() && p.state != MessageReady
    modifies p.Repr()
    ensures var d := Deliver(old(p.Raw()), chunk);
            && messages == d.messages
            && match error
               case Some(e) => d.end.phase == Failed(e)
               case None => p.Valid() && p.Waiting() && p.state != MessageReady && d.end == p.Raw()
  {
    hide Deliver, Processor.Valid, Processor.Raw, Taking;
    var buf := new byte[|chunk|](i requires 0 <= i < |chunk| => chunk[i]);
    assert buf[0..] == chunk;
    messages := [];
    ghost var all := Deliver(p.Raw(), chunk);
    var at := 0;
    while at < buf.Length
      invariant at <= buf.Length && p.Valid() && p.Waiting() && p.state != MessageReady
      invariant all == After(messages, Deliver(p.Raw(), buf[at..]))
      modifies p.Repr(), buf
    {
      var r, m := ReceiveOne(p, buf, at);
      AfterTwice(messages, Taking(m), if r.Ok? then Deliver(p.Raw(), buf[at + r.value..]) else all);
      if r.Err? {
        return messages, Some(r.error);
      }
      messages := messages + Taking(m);
      at := at + r.value;
    }
    assert buf[at..] == [];
    NothingDelivered(p.Raw());
    return messages, None;
  }

  /** Some messages and then what else is delivered. */
  ghost function After(messages: seq<Message>, d: Delivered): Delivered {
    Delivered(messages + d.messages, d.end)
  }

  lemma AfterTwice(a: seq<Message>, b: seq<Message>, d: Delivered)
    ensures After(a, After(b, d)) == After(a + b, d) && a + [] == a
  {
    assert a + (b + d.messages) == a + b + d.messages;
  }

  lemma NothingDelivered(s: Session)
    ensures Deliver(s, []) == Delivered([], s)
  {
  }

  /** However a stream of bytes is cut into chunks, the messages received, and the error that ends the
      reception if there is one, are those that the whole stream means. */
  method Receive(server: bool, maxMessageSize: nat, chunks: seq<seq<byte>>)
    returns (messages: seq<Message>, error: Option<Error>)
    ensures var d := Deliver(Start(server, maxMessageSize), S.Flatten(chunks));
            && messages == d.messages
            && match error
               case Some(e) => d.end.phase == Failed(e)
               case None => !d.end.phase.Failed?
  {
    hide Deliver;
    var p := new Processor(server, maxMessageSize);
    ghost var start := p.Raw();
    messages := [];
    NothingDelivered(start);
    for i := 0 to |chunks|
      invariant p.Valid() && p.Waiting() && p.state != MessageReady && fresh(p.Repr())
      invariant Deliver(start, S.Flatten(chunks[..i])) == Delivered(messages, p.Raw())
      modifies p.Repr()
    {
      p.Settled();
      S.FlattenSnoc(chunks[..i], chunks[i]);
      assert chunks[..i + 1] == chunks[..i] + [chunks[i]];
      DeliverAppend(start, S.Flatten(chunks[..i]), chunks[i]);
      ghost var before := p.Raw();
      var more, e := ReceiveChunk(p, chunks[i]);
      messages := messages + more;
      if e.Some? {
        FlattenSplit(chunks, i + 1);
        DeliverAppend(start, S.Flatten(chunks[..i + 1]), S.Flatten(chunks[i + 1..]));
        return messages, e;
      }
    }
    p.Settled();
    assert chunks[..|chunks|] == chunks;
    return messages, None;
  }

  lemma {:induction false} FlattenSplit(chunks: seq<seq<byte>>, i: nat)
    requires i <= |chunks|
    ensures S.Flatten(chunks) == S.Flatten(chunks[..i]) + S.Flatten(chunks[i..])
  {
    if i == 0 {
      assert chunks[0..] == chunks && chunks[..0] == [];
    } else {
      FlattenSplit(chunks[1..], i - 1);
      assert chunks[..i][1..] == chunks[1..][..i - 1];
      assert chunks[1..][i - 1..] == chunks[i..];
    }
  }
}
