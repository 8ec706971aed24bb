/**
 `serve_urb_echo`: the server's side of one URB. Its framing peek is its own; its reply echoes an
 OUT payload in a RET_SUBMIT or acknowledges an unlink.
 */
module Server {
  import opened Bytes
  import opened Codec
  import opened CodecLaws
  import opened Framing
  import opened Transport
  import opened Wire
  import opened Wrappers

  const NO_PADDING: Padding := [0, 0, 0, 0, 0, 0]

  function PayloadLength(payload: Option<seq<byte>>): nat {
    if payload.Some? then |payload.value| else 0
  }

  /** `i32::try_from(..).unwrap_or(0)`. */
  function TryI32(n: nat): i32 {
    if n < 0x8000_0000 then n else 0
  }

  /** The reply to a decoded frame, or why the server refuses it. */
  function Reply(f: Frame): (r: Result<Frame, ProtocolError>)
    requires f.header.TagAgrees()
    ensures r.Success? ==> r.value.header.TagAgrees()
  {
    var base := f.header.base;
    if base.command == CMD_SUBMIT then
      if f.header.u.cmdSubmit.numberOfPackets != 0 then Failure(IsochronousNotSupported)
      else Success(Frame(
                     UsbipHeader(UsbipHeaderBasic(RET_SUBMIT, base.seqnum, base.devid, USBIP_DIR_IN, base.ep),
                                 RetSubmit(UsbipHeaderRetSubmit(0, TryI32(PayloadLength(f.payload)), 0, 0, 0,
                                                                f.header.u.cmdSubmit.setup))),
                     f.payload))
    else if base.command == CMD_UNLINK then
      Success(Frame(UsbipHeader(UsbipHeaderBasic(RET_UNLINK, base.seqnum, base.devid, base.direction, base.ep),
                                RetUnlink(UsbipHeaderRetUnlink(0, NO_PADDING))),
                    None))
    else
      Failure(InvalidCommand(base.command))
  }

  /** What one call does: its result, the bytes left to read and the bytes it tries to write. */
  datatype Served = Served(result: Result<UsbipHeader, ProtocolError>, rest: seq<byte>, output: seq<byte>)

  /** The part of a call after all bytes of the request were read. */
  function Answer(request: seq<byte>, rest: seq<byte>): (s: Served)
    ensures s.rest == rest
  {
    var f := ParseHeader(request);
    if f.Failure? then Served(Failure(f.error), rest, [])
    else
      var reply := Reply(f.value);
      if reply.Failure? then Served(Failure(reply.error), rest, [])
      else
        var encoded := HeaderBytes(reply.value.header, reply.value.payload);
        if encoded.Failure? then Served(Failure(encoded.error), rest, [])
        else Served(Success(f.value.header), rest, encoded.value)
  }

  function Serve(inbound: seq<byte>): Served {
    if |inbound| < PAYLOAD_OFFSET then Served(Failure(IoError), [], [])
    else
      var peek := ServerPeek(inbound[..PAYLOAD_OFFSET]);
      if peek.Failure? then Served(Failure(peek.error), inbound[PAYLOAD_OFFSET..], [])
      else
        var need := PAYLOAD_OFFSET + peek.value;
        if |inbound| < need then Served(Failure(IoError), [], [])
        else Answer(inbound[..need], inbound[need..])
  }

  /** Decoding the request, building the reply and writing it. */
  method AnswerRequest(buf: seq<byte>, stream: ByteStream) returns (r: Result<UsbipHeader, ProtocolError>)
    modifies stream`outbound, stream`capacity
    ensures var s := Answer(buf, stream.inbound);
            var fits := |s.output| <= old(stream.capacity);
            && stream.outbound == old(stream.outbound) + (if fits then s.output else s.output[..old(stream.capacity)])
            && stream.capacity == (if fits then old(stream.capacity) - |s.output| else 0)
            && r == if s.result.Success? && !fits then Failure(IoError) else s.result
  {
    var decoded := DecodeHeader(buf);
    if decoded.Failure? {
      return Failure(decoded.error);
    }
    var Frame(header, payload) := decoded.value;
    assert header.TagAgrees();
    var reply: UsbipHeader;
    var replyPayload := None;
    if header.base.command == CMD_SUBMIT {
      var cmd := header.u.cmdSubmit;
      if cmd.numberOfPackets != 0 {
        return Failure(IsochronousNotSupported);
      }
      replyPayload := payload;
      var echoLen := TryI32(PayloadLength(replyPayload));
      reply := UsbipHeader(
        UsbipHeaderBasic(RET_SUBMIT, header.base.seqnum, header.base.devid, USBIP_DIR_IN, header.base.ep),
        RetSubmit(UsbipHeaderRetSubmit(0, echoLen, 0, 0, 0, cmd.setup)));
    } else if header.base.command == CMD_UNLINK {
      reply := UsbipHeader(
        UsbipHeaderBasic(RET_UNLINK, header.base.seqnum, header.base.devid, header.base.direction, header.base.ep),
        RetUnlink(UsbipHeaderRetUnlink(0, NO_PADDING)));
    } else {
      return Failure(InvalidCommand(header.base.command));
    }
    var encoded := EncodeHeader(reply, replyPayload);
    if encoded.Failure? {
      return Failure(encoded.error);
    }
    var ok := stream.WriteAll(encoded.value);
    return if ok then Success(header) else Failure(IoError);
  }

  method ServeUrbEcho(stream: ByteStream) returns (r: Result<UsbipHeader, ProtocolError>)
    modifies stream
    ensures var s := Serve(old(stream.inbound));
            var fits := |s.output| <= old(stream.capacity);
            && stream.inbound == s.rest
            && stream.outbound == old(stream.outbound) + (if fits then s.output else s.output[..old(stream.capacity)])
            && stream.capacity == (if fits then old(stream.capacity) - |s.output| else 0)
            && r == if s.result.Success? && !fits then Failure(IoError) else s.result
  {
    hide Answer;
    ghost var inbound := stream.inbound;
    var ok, buf := stream.ReadExact(BASIC_HEADER_SIZE + CMD_HEADER_SIZE);
    if !ok {
      return Failure(IoError);
    }
    var command := U32Of(buf[0..4]);
    var direction := U32Of(buf[DIRECTION_OFFSET..DIRECTION_OFFSET + 4]);
    var payloadLen: nat := 0;
    if command == CMD_SUBMIT {
      var tfl := I32Of(buf[TFL_OFFSET..TFL_OFFSET + 4]);
      if tfl > 0 && direction == USBIP_DIR_OUT {
        payloadLen := tfl;
      }
    }
    assert payloadLen == ServerPayload(buf);
    if payloadLen > MAX_PAYLOAD_SIZE {
      return Failure(BufferTooLarge(payloadLen, MAX_PAYLOAD_SIZE));
    }
    if payloadLen > 0 {
      var more, payload := stream.ReadExact(payloadLen);
      if !more {
        return Failure(IoError);
      }
      buf := buf + payload;
    }
    assert buf == inbound[..PAYLOAD_OFFSET + payloadLen] && stream.inbound == inbound[PAYLOAD_OFFSET + payloadLen..];
    r := AnswerRequest(buf, stream);
  }

  // ---------------------------------------------------------------- replies

  /** A frame that the server answers. */
  predicate IsRequest(f: Frame): (r: bool)
    ensures r ==> f.header.TagAgrees()
  {
    && WellFormed(f)
    && (f.header.base.command == CMD_SUBMIT || f.header.base.command == CMD_UNLINK)
  }

  /** What the client is promised about the reply to `f`. */
  predicate Answers(reply: Frame, f: Frame)
    requires IsRequest(f)
  {
    var b, q := reply.header.base, f.header.base;
    && b.seqnum == q.seqnum && b.devid == q.devid && b.ep == q.ep
    && reply.header.TagAgrees()
    && reply.payload == f.payload
    && (q.command == CMD_SUBMIT ==>
          && b.command == RET_SUBMIT && b.direction == USBIP_DIR_IN
          && reply.header.u.retSubmit.status == 0
          && reply.header.u.retSubmit.actualLength == PayloadLength(f.payload)
          && reply.header.u.retSubmit.startFrame == 0 && reply.header.u.retSubmit.errorCount == 0
          && reply.header.u.retSubmit.setup == f.header.u.cmdSubmit.setup)
    && (q.command == CMD_UNLINK ==>
          && b.command == RET_UNLINK && b.direction == q.direction
          && reply.header.u.retUnlink.status == 0
          && forall i | 0 <= i < 6 :: reply.header.u.retUnlink.padding[i] == 0)
  }

  /**
   The reply to a request answers it, can be encoded and received, and takes exactly as many bytes
   as the request: 48 plus the echoed payload. The length-conversion fallback is not taken.
   */
  lemma ReplyAnswers(f: Frame)
    requires IsRequest(f)
    ensures Reply(f).Success?
    ensures var reply := Reply(f).value;
            && Answers(reply, f)
            && Receivable(reply)
            && |FrameBytes(reply)| == PAYLOAD_OFFSET + PayloadLength(f.payload) == |FrameBytes(f)|
            && PayloadLength(f.payload) < 0x8000_0000
  {
  }

  lemma AnswerRequestBytes(f: Frame, rest: seq<byte>)
    requires IsRequest(f)
    ensures Reply(f).Success? && WellFormed(Reply(f).value)
    ensures Answer(FrameBytes(f), rest) == Served(Success(f.header), rest, FrameBytes(Reply(f).value))
  {
    hide Reply, ParseHeader, FrameBytes, HeaderBytes;
    ReplyAnswers(f);
    DecodeUndoesEncode(f, []);
    assert FrameBytes(f) + [] == FrameBytes(f);
    WellFormedEncodes(Reply(f).value);
  }

  /** Once the peeked number of bytes is read, in whatever pieces, the rest of the call is the answer. */
  lemma ServeWhole(request: seq<byte>, rest: seq<byte>)
    requires PAYLOAD_OFFSET <= |request|
    ensures var peek := ServerPeek(request[..PAYLOAD_OFFSET]);
            && (peek.Failure? && |request| == PAYLOAD_OFFSET ==>
                  Serve(request + rest) == Served(Failure(peek.error), rest, []))
            && (peek.Success? && |request| == PAYLOAD_OFFSET + peek.value ==>
                  Serve(request + rest) == Answer(request, rest))
  {
    hide ServerPeek, Answer;
    assert (request + rest)[..PAYLOAD_OFFSET] == request[..PAYLOAD_OFFSET];
    assert (request + rest)[..|request|] == request && (request + rest)[|request|..] == rest;
  }

  /** Serving an encoded request consumes it and writes the encoded reply, whatever follows. */
  lemma ServeRequest(f: Frame, rest: seq<byte>)
    requires IsRequest(f)
    ensures Reply(f).Success? && WellFormed(Reply(f).value)
    ensures Serve(FrameBytes(f) + rest) == Served(Success(f.header), rest, FrameBytes(Reply(f).value))
  {
    hide Serve, Reply, Answer, FrameBytes, ServerPeek, DeclaredPayload, FixedOf;
    AnswerRequestBytes(f, rest);
    PeekOfEncoded(f);
    assert |FrameBytes(f)| == PAYLOAD_OFFSET + DeclaredPayload(f.header);
    ServeWhole(FrameBytes(f), rest);
  }

  lemma RefusedWithoutOutput(inbound: seq<byte>)
    ensures Serve(inbound).result.Failure? ==> Serve(inbound).output == []
  {
    hide ParseHeader, HeaderBytes, Reply, ServerPeek;
  }

  lemma DeclaredIsDecoded(b: seq<byte>)
    requires ParseHeader(b).Success?
    ensures var f := ParseHeader(b).value;
            f.header.TagAgrees() && DeclaredPayload(f.header) == PayloadLength(f.payload)
  {
  }

  lemma ServedIsRequest(inbound: seq<byte>)
    requires Serve(inbound).result.Success?
    ensures exists f, rest :: IsRequest(f) && inbound == FrameBytes(f) + rest
  {
    hide ParseHeader, ServerPeek, HeaderBytes, FrameBytes, PayloadMatches;
    var buf := inbound[..PAYLOAD_OFFSET];
    var need := PAYLOAD_OFFSET + ServerPeek(buf).value;
    var b, payload := inbound[..need], inbound[PAYLOAD_OFFSET..need];
    assert b == buf + payload;
    var f := ParseHeader(b).value;
    EncodeUndoesDecode(b);
    ServerPeekRefinesDecoder(buf, payload);
    DeclaredIsDecoded(b);
    WellFormedEncodes(f);
    assert b[..need] == b;
    assert IsRequest(f) && inbound == FrameBytes(f) + inbound[need..];
  }

  /**
   Conversely the server succeeds on nothing else: a call succeeds exactly on a stream that starts
   with an encoded request, and then returns its header, consumes it and writes exactly the encoded
   reply to it. Every other stream is refused without a byte written.
   */
  lemma ServesExactlyRequests(inbound: seq<byte>)
    ensures var s := Serve(inbound);
            && (s.result.Failure? ==> s.output == [])
            && (s.result.Success? <==> exists f, rest :: IsRequest(f) && inbound == FrameBytes(f) + rest)
            && (forall f, rest | IsRequest(f) && inbound == FrameBytes(f) + rest ::
                  && Reply(f).Success?
                  && s == Served(Success(f.header), rest, FrameBytes(Reply(f).value)))
  {
    hide FrameBytes, IsRequest, Reply, ServerPeek, Answer, WellFormed;
    forall f, rest | IsRequest(f) && inbound == FrameBytes(f) + rest
      ensures Reply(f).Success? && Serve(inbound) == Served(Success(f.header), rest, FrameBytes(Reply(f).value))
    {
      ServeRequest(f, rest);
    }
    if Serve(inbound).result.Success? {
      ServedIsRequest(inbound);
    }
    RefusedWithoutOutput(inbound);
  }

  /** The refusals of a completely read request, by its first 48 bytes. */
  predicate Refuses(buf: seq<byte>, e: ProtocolError)
    requires |buf| == PAYLOAD_OFFSET
  {
    var command, valid := U32At(buf, 0), ValidDirection(U32At(buf, DIRECTION_OFFSET));
    var starved := command == RET_SUBMIT && I32At(buf, TFL_OFFSET) > 0;
    && (e == EncodingError <==> !valid)
    && (e.IncompleteBuffer? <==> valid && starved)
    && (e.IncompleteBuffer? ==> e == IncompleteBuffer(PAYLOAD_OFFSET + I32At(buf, TFL_OFFSET), PAYLOAD_OFFSET))
    && (e == IsochronousNotSupported <==> valid && command == CMD_SUBMIT && I32At(buf, NUM_PACKETS_OFFSET) != 0)
    && (e.InvalidCommand? <==> valid && command != CMD_SUBMIT && command != CMD_UNLINK && !starved)
    && (e.InvalidCommand? ==> e.command == command)
    && !e.BufferTooLarge? && e != IoError
  }

  lemma BaseOfFixed(buf: seq<byte>)
    requires |buf| == PAYLOAD_OFFSET && KnownCommand(U32At(buf, 0))
    ensures FixedOf(buf).base.command == U32At(buf, 0)
    ensures FixedOf(buf).base.direction == U32At(buf, DIRECTION_OFFSET)
  {
  }

  lemma ReplyRefuses(f: Frame)
    requires f.header.TagAgrees() && KnownCommand(f.header.base.command)
    requires f.header.base.command == CMD_SUBMIT ==> Isochronous(f.header)
    requires f.header.base.command != CMD_UNLINK
    ensures Reply(f) == Failure(if f.header.base.command == CMD_SUBMIT then IsochronousNotSupported
                                else InvalidCommand(f.header.base.command))
  {
  }

  /** A completely read request is refused exactly as `Refuses` says, and otherwise answered. */
  lemma RefusalConditions(buf: seq<byte>, payload: seq<byte>, rest: seq<byte>)
    requires |buf| == PAYLOAD_OFFSET && ServerPeek(buf) == Success(|payload|)
    ensures var s := Answer(buf + payload, rest);
            && (s.result.Failure? ==> Refuses(buf, s.result.error))
            && (s.result.Success? ==> forall e :: !Refuses(buf, e))
  {
    hide FixedOf, ParseHeader, HeaderBytes, FrameBytes, Reply;
    var b := buf + payload;
    ParseSplit(buf, payload);
    ServerPeekRefinesDecoder(buf, payload);
    if KnownCommand(U32At(buf, 0)) {
      PeeksReadFields(buf);
      BaseOfFixed(buf);
    }
    if ParseHeader(b).Success? {
      var f := ParseHeader(b).value;
      EncodeUndoesDecode(b);
      assert f.header == FixedOf(buf);
      if IsRequest(f) {
        ReplyAnswers(f);
        WellFormedEncodes(Reply(f).value);
      } else {
        ReplyRefuses(f);
      }
    }
  }

  /**
   Every refusal on a stream, with its condition and the bytes it consumes: everything when the
   stream ends inside a request, 48 for oversize, and otherwise 48 plus the payload that the peek
   found.
   */
  lemma RefusalsAccounted(inbound: seq<byte>)
    requires Serve(inbound).result.Failure?
    ensures var s := Serve(inbound);
            var e := s.result.error;
            && (e == IoError <==>
                || |inbound| < PAYLOAD_OFFSET
                || (ServerPayload(inbound[..PAYLOAD_OFFSET]) <= MAX_PAYLOAD_SIZE
                    && |inbound| < PAYLOAD_OFFSET + ServerPayload(inbound[..PAYLOAD_OFFSET])))
            && (e == IoError ==> s.rest == [])
            && (e != IoError ==>
                  && PAYLOAD_OFFSET <= |inbound|
                  && var buf := inbound[..PAYLOAD_OFFSET];
                  && (e.BufferTooLarge? <==> ServerPayload(buf) > MAX_PAYLOAD_SIZE)
                  && (e.BufferTooLarge? ==> e == BufferTooLarge(ServerPayload(buf), 1_048_576))
                  && (if e.BufferTooLarge? then
                        s.rest == inbound[PAYLOAD_OFFSET..]
                      else
                        && PAYLOAD_OFFSET + ServerPayload(buf) <= |inbound|
                        && s.rest == inbound[PAYLOAD_OFFSET + ServerPayload(buf)..]
                        && Refuses(buf, e)))
  {
    hide Answer, ServerPayload;
    if PAYLOAD_OFFSET <= |inbound| {
      var buf := inbound[..PAYLOAD_OFFSET];
      var n := ServerPayload(buf);
      if n <= MAX_PAYLOAD_SIZE && PAYLOAD_OFFSET + n <= |inbound| {
        var payload, rest := inbound[PAYLOAD_OFFSET..PAYLOAD_OFFSET + n], inbound[PAYLOAD_OFFSET + n..];
        assert inbound[..PAYLOAD_OFFSET + n] == buf + payload;
        RefusalConditions(buf, payload, rest);
      }
    }
  }

  lemma WireDirection(f: Frame)
    ensures U32At(FrameBytes(f), 12) == f.header.base.direction
  {
    BasicLayout(f.header);
    U32RoundTrip(f.header.base.direction);
    assert FrameBytes(f)[12..16] == FixedBytes(f.header)[12..16];
  }

  /** A RET_SUBMIT with a payload starves the server's decoder; the payload stays on the stream. */
  lemma RetSubmitStarvesDecoder(f: Frame, rest: seq<byte>)
    requires WellFormed(f) && f.header.base.command == RET_SUBMIT && f.payload.Some?
    ensures var s := Serve(FrameBytes(f) + rest);
            s.result.Failure? && s.result.error.IncompleteBuffer? && s.rest == f.payload.value + rest
  {
    hide HeaderBytes, ParseHeader, FixedOf, Reply, Serve, FixedBytes;
    var buf := FrameBytes(f)[..PAYLOAD_OFFSET];
    PeekOfEncoded(f);
    assert buf[0..4] == FrameBytes(f)[0..4];
    WireDirection(f);
    assert buf[12..16] == FrameBytes(f)[12..16];
    ServerPeekRefinesDecoder(buf, []);
    assert buf + [] == buf;
    ServeWhole(buf, f.payload.value + rest);
    assert FrameBytes(f) + rest == buf + (f.payload.value + rest);
  }

  /** Such a frame: one byte of data. */
  lemma StarvingFrameExists()
    ensures var f := Frame(UsbipHeader(UsbipHeaderBasic(RET_SUBMIT, 1, 0, USBIP_DIR_IN, 0),
                                       RetSubmit(UsbipHeaderRetSubmit(0, 1, 0, 0, 0, [0, 0, 0, 0, 0, 0, 0, 0]))),
                           Some([7]));
            && WellFormed(f)
            && Serve(FrameBytes(f)).result.Failure? && Serve(FrameBytes(f)).result.error.IncompleteBuffer?
  {
    var f := Frame(UsbipHeader(UsbipHeaderBasic(RET_SUBMIT, 1, 0, USBIP_DIR_IN, 0),
                               RetSubmit(UsbipHeaderRetSubmit(0, 1, 0, 0, 0, [0, 0, 0, 0, 0, 0, 0, 0]))), Some([7]));
    RetSubmitStarvesDecoder(f, []);
    assert FrameBytes(f) + [] == FrameBytes(f);
  }
}
