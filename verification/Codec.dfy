/**
 The header codec of `protocol/codec.rs`.

 The encoders append to a `BytesMut` and the decoders advance a `Cursor`, as in the source.
 Each is proved equal to a function on byte strings (`BasicBytes`, `ParseBasic`, `HeaderBytes`,
 `ParseHeader`, ...); `CodecLaws` proves what those functions promise. A cursor read requires
 its bytes to be there, so the "failed to read" branches of the source are shown dead.
 */
module Codec {
  import opened Bytes
  import opened Wire
  import opened Wrappers

  // ---------------------------------------------------------------- layouts

  function BasicBytes(h: UsbipHeaderBasic): (b: seq<byte>)
    ensures |b| == BASIC_HEADER_SIZE
  {
    U32Bytes(h.command) + U32Bytes(h.seqnum) + U32Bytes(h.devid) + U32Bytes(h.direction) + U32Bytes(h.ep)
  }

  function CmdSubmitBytes(c: UsbipHeaderCmdSubmit): (b: seq<byte>)
    ensures |b| == CMD_HEADER_SIZE
  {
    U32Bytes(c.transferFlags) + I32Bytes(c.transferBufferLength) + I32Bytes(c.startFrame)
    + I32Bytes(c.numberOfPackets) + I32Bytes(c.interval) + c.setup
  }

  function RetSubmitBytes(r: UsbipHeaderRetSubmit): (b: seq<byte>)
    ensures |b| == CMD_HEADER_SIZE
  {
    I32Bytes(r.status) + I32Bytes(r.actualLength) + I32Bytes(r.startFrame)
    + I32Bytes(r.numberOfPackets) + I32Bytes(r.errorCount) + r.setup
  }

  function CmdUnlinkBytes(c: UsbipHeaderCmdUnlink): (b: seq<byte>)
    ensures |b| == CMD_HEADER_SIZE
  {
    U32Bytes(c.seqnum) + WordsBytes(c.padding)
  }

  function RetUnlinkBytes(r: UsbipHeaderRetUnlink): (b: seq<byte>)
    ensures |b| == CMD_HEADER_SIZE
  {
    I32Bytes(r.status) + WordsBytes(r.padding)
  }

  function BodyBytes(u: CommandSpecific): (b: seq<byte>)
    ensures |b| == CMD_HEADER_SIZE
  {
    match u
    case CmdSubmit(c) => CmdSubmitBytes(c)
    case RetSubmit(r) => RetSubmitBytes(r)
    case CmdUnlink(c) => CmdUnlinkBytes(c)
    case RetUnlink(r) => RetUnlinkBytes(r)
  }

  function FixedBytes(h: UsbipHeader): (b: seq<byte>)
    ensures |b| == PAYLOAD_OFFSET
  {
    BasicBytes(h.base) + BodyBytes(h.u)
  }

  // ---------------------------------------------------------------- encoding

  /** What `encode_header` returns: the first error in the source's order of checks, or the bytes. */
  function HeaderBytes(h: UsbipHeader, payload: Option<seq<byte>>): Result<seq<byte>, ProtocolError>
    requires h.TagAgrees()
  {
    if !ValidDirection(h.base.direction) then Failure(EncodingError)
    else if !KnownCommand(h.base.command) then Failure(InvalidCommand(h.base.command))
    else if Isochronous(h) then Failure(IsochronousNotSupported)
    else if DeclaredPayload(h) == 0 then Success(FixedBytes(h))
    else if payload.None? then Failure(EncodingError)
    else if |payload.value| > MAX_PAYLOAD_SIZE then Failure(BufferTooLarge(|payload.value|, MAX_PAYLOAD_SIZE))
    else Success(FixedBytes(h) + payload.value)
  }

  method EncodeBasic(basic: UsbipHeaderBasic, buf: BytesMut) returns (r: Option<ProtocolError>)
    modifies buf
    ensures r == if ValidDirection(basic.direction) then None else Some(EncodingError)
    ensures buf.data == if r.None? then old(buf.data) + BasicBytes(basic) else old(buf.data)
  {
    if basic.direction != USBIP_DIR_OUT && basic.direction != USBIP_DIR_IN {
      return Some(EncodingError);
    }
    buf.PutU32(basic.command);
    buf.PutU32(basic.seqnum);
    buf.PutU32(basic.devid);
    buf.PutU32(basic.direction);
    buf.PutU32(basic.ep);
    return None;
  }

  method EncodeCmdSubmit(cmd: UsbipHeaderCmdSubmit, buf: BytesMut) returns (r: Option<ProtocolError>)
    modifies buf
    ensures r == if cmd.numberOfPackets != 0 then Some(IsochronousNotSupported) else None
    ensures buf.data == if r.None? then old(buf.data) + CmdSubmitBytes(cmd) else old(buf.data)
  {
    if cmd.numberOfPackets != 0 {
      return Some(IsochronousNotSupported);
    }
    buf.PutU32(cmd.transferFlags);
    buf.PutI32(cmd.transferBufferLength);
    buf.PutI32(cmd.startFrame);
    buf.PutI32(cmd.numberOfPackets);
    buf.PutI32(cmd.interval);
    buf.PutSlice(cmd.setup);
    return None;
  }

  method EncodeRetSubmit(ret: UsbipHeaderRetSubmit, buf: BytesMut) returns (r: Option<ProtocolError>)
    modifies buf
    ensures r == if ret.numberOfPackets != 0 then Some(IsochronousNotSupported) else None
    ensures buf.data == if r.None? then old(buf.data) + RetSubmitBytes(ret) else old(buf.data)
  {
    if ret.numberOfPackets != 0 {
      return Some(IsochronousNotSupported);
    }
    buf.PutI32(ret.status);
    buf.PutI32(ret.actualLength);
    buf.PutI32(ret.startFrame);
    buf.PutI32(ret.numberOfPackets);
    buf.PutI32(ret.errorCount);
    buf.PutSlice(ret.setup);
    return None;
  }

  /** The loop over the six padding words, shared by the two unlink encoders. */
  method EncodePadding(padding: Padding, buf: BytesMut)
    modifies buf
    ensures buf.data == old(buf.data) + WordsBytes(padding)
  {
    for i := 0 to 6
      invariant buf.data + WordsBytes(padding[i..]) == old(buf.data) + WordsBytes(padding)
    {
      assert padding[i..][1..] == padding[i + 1..];
      buf.PutU32(padding[i]);
    }
  }

  method EncodeCmdUnlink(cmd: UsbipHeaderCmdUnlink, buf: BytesMut)
    modifies buf
    ensures buf.data == old(buf.data) + CmdUnlinkBytes(cmd)
  {
    buf.PutU32(cmd.seqnum);
    EncodePadding(cmd.padding, buf);
  }

  method EncodeRetUnlink(ret: UsbipHeaderRetUnlink, buf: BytesMut)
    modifies buf
    ensures buf.data == old(buf.data) + RetUnlinkBytes(ret)
  {
    buf.PutI32(ret.status);
    EncodePadding(ret.padding, buf);
  }

  /** The payload checks that `encode_header` makes for both submit commands. */
  method EncodePayload(payload: Option<seq<byte>>, buf: BytesMut) returns (r: Option<ProtocolError>)
    modifies buf
    ensures r == if payload.None? then Some(EncodingError)
                 else if |payload.value| > MAX_PAYLOAD_SIZE then Some(BufferTooLarge(|payload.value|, MAX_PAYLOAD_SIZE))
                 else None
    ensures buf.data == if r.None? then old(buf.data) + payload.value else old(buf.data)
  {
    if payload.None? {
      return Some(EncodingError);
    }
    if |payload.value| > MAX_PAYLOAD_SIZE {
      return Some(BufferTooLarge(|payload.value|, MAX_PAYLOAD_SIZE));
    }
    buf.PutSlice(payload.value);
    return None;
  }

  method EncodeHeader(header: UsbipHeader, payload: Option<seq<byte>>) returns (r: Result<seq<byte>, ProtocolError>)
    requires header.TagAgrees()
    ensures r == HeaderBytes(header, payload)
  {
    var buf := new BytesMut();
    var err := EncodeBasic(header.base, buf);
    if err.Some? {
      return Failure(err.value);
    }
    assert buf.data == BasicBytes(header.base);
    ghost var basicBytes := buf.data;
    if header.base.command == CMD_SUBMIT {
      var cmd := header.u.cmdSubmit;
      err := EncodeCmdSubmit(cmd, buf);
      if err.Some? {
        return Failure(err.value);
      }
      assert buf.data == basicBytes + BodyBytes(header.u);
      if header.base.direction == USBIP_DIR_OUT && cmd.transferBufferLength > 0 {
        err := EncodePayload(payload, buf);
        if err.Some? {
          return Failure(err.value);
        }
      }
    } else if header.base.command == RET_SUBMIT {
      var ret := header.u.retSubmit;
      err := EncodeRetSubmit(ret, buf);
      if err.Some? {
        return Failure(err.value);
      }
      assert buf.data == basicBytes + BodyBytes(header.u);
      if ret.actualLength > 0 {
        err := EncodePayload(payload, buf);
        if err.Some? {
          return Failure(err.value);
        }
      }
    } else if header.base.command == CMD_UNLINK {
      EncodeCmdUnlink(header.u.cmdUnlink, buf);
      assert buf.data == basicBytes + BodyBytes(header.u);
    } else if header.base.command == RET_UNLINK {
      EncodeRetUnlink(header.u.retUnlink, buf);
      assert buf.data == basicBytes + BodyBytes(header.u);
    } else {
      return Failure(InvalidCommand(header.base.command));
    }
    return Success(buf.data);
  }

  // ---------------------------------------------------------------- decoding

  function BasicOf(b: seq<byte>): UsbipHeaderBasic
    requires BASIC_HEADER_SIZE <= |b|
  {
    UsbipHeaderBasic(U32At(b, 0), U32At(b, 4), U32At(b, 8), U32At(b, 12), U32At(b, 16))
  }

  function ParseBasic(b: seq<byte>): Result<UsbipHeaderBasic, ProtocolError> {
    if |b| < BASIC_HEADER_SIZE then Failure(IncompleteBuffer(BASIC_HEADER_SIZE, |b|))
    else if !ValidDirection(U32At(b, 12)) then Failure(EncodingError)
    else Success(BasicOf(b))
  }

  function CmdSubmitOf(b: seq<byte>): UsbipHeaderCmdSubmit
    requires |b| == CMD_HEADER_SIZE
  {
    UsbipHeaderCmdSubmit(U32At(b, 0), I32At(b, 4), I32At(b, 8), I32At(b, 12), I32At(b, 16), b[20..28])
  }

  function RetSubmitOf(b: seq<byte>): UsbipHeaderRetSubmit
    requires |b| == CMD_HEADER_SIZE
  {
    UsbipHeaderRetSubmit(I32At(b, 0), I32At(b, 4), I32At(b, 8), I32At(b, 12), I32At(b, 16), b[20..28])
  }

  function CmdUnlinkOf(b: seq<byte>): UsbipHeaderCmdUnlink
    requires |b| == CMD_HEADER_SIZE
  {
    UsbipHeaderCmdUnlink(U32At(b, 0), Words(b[4..]))
  }

  function RetUnlinkOf(b: seq<byte>): UsbipHeaderRetUnlink
    requires |b| == CMD_HEADER_SIZE
  {
    UsbipHeaderRetUnlink(I32At(b, 0), Words(b[4..]))
  }

  function BodyOf(command: u32, b: seq<byte>): (u: CommandSpecific)
    requires |b| == CMD_HEADER_SIZE
    requires KnownCommand(command)
  {
    if command == CMD_SUBMIT then CmdSubmit(CmdSubmitOf(b))
    else if command == RET_SUBMIT then RetSubmit(RetSubmitOf(b))
    else if command == CMD_UNLINK then CmdUnlink(CmdUnlinkOf(b))
    else RetUnlink(RetUnlinkOf(b))
  }

  /** The 48-byte header at the front of a buffer. */
  function FixedOf(b: seq<byte>): (h: UsbipHeader)
    requires PAYLOAD_OFFSET <= |b|
    requires KnownCommand(U32At(b, 0))
    ensures h.TagAgrees()
  {
    UsbipHeader(BasicOf(b), BodyOf(U32At(b, 0), b[BASIC_HEADER_SIZE..PAYLOAD_OFFSET]))
  }

  /** What `decode_header` returns. */
  function ParseHeader(b: seq<byte>): Result<Frame, ProtocolError> {
    var basic := ParseBasic(b);
    if basic.Failure? then Failure(basic.error)
    else if |b| < PAYLOAD_OFFSET then Failure(IncompleteBuffer(PAYLOAD_OFFSET, |b|))
    else if !KnownCommand(basic.value.command) then Failure(InvalidCommand(basic.value.command))
    else
      var h := FixedOf(b);
      var n := DeclaredPayload(h);
      if |b| < PAYLOAD_OFFSET + n then Failure(IncompleteBuffer(PAYLOAD_OFFSET + n, |b|))
      else if n > MAX_PAYLOAD_SIZE then Failure(BufferTooLarge(n, MAX_PAYLOAD_SIZE))
      else Success(Frame(h, if n == 0 then None else Some(b[PAYLOAD_OFFSET..PAYLOAD_OFFSET + n])))
  }

  lemma SliceWord(buf: seq<byte>, n: nat)
    requires n <= |buf|
    ensures forall i: nat | i + 4 <= n :: U32At(buf[..n], i) == U32At(buf, i)
  {
    forall i: nat | i + 4 <= n
      ensures U32At(buf[..n], i) == U32At(buf, i)
    {
      assert buf[..n][i..i + 4] == buf[i..i + 4];
    }
  }

  method DecodeBasic(buf: seq<byte>) returns (r: Result<UsbipHeaderBasic, ProtocolError>)
    ensures r == ParseBasic(buf)
  {
    if |buf| < BASIC_HEADER_SIZE {
      return Failure(IncompleteBuffer(BASIC_HEADER_SIZE, |buf|));
    }
    var slice := new Cursor(buf[..BASIC_HEADER_SIZE]);
    var command := slice.ReadU32();
    var seqnum := slice.ReadU32();
    var devid := slice.ReadU32();
    var direction := slice.ReadU32();
    var ep := slice.ReadU32();
    assert forall i: nat | i + 4 <= BASIC_HEADER_SIZE :: U32At(slice.data, i) == U32At(buf, i) by {
      SliceWord(buf, BASIC_HEADER_SIZE);
    }
    if direction != USBIP_DIR_OUT && direction != USBIP_DIR_IN {
      return Failure(EncodingError);
    }
    return Success(UsbipHeaderBasic(command, seqnum, devid, direction, ep));
  }

  method DecodeCmdSubmit(buf: seq<byte>) returns (r: Result<UsbipHeaderCmdSubmit, ProtocolError>)
    ensures r == if |buf| < CMD_HEADER_SIZE then Failure(IncompleteBuffer(CMD_HEADER_SIZE, |buf|))
                 else Success(CmdSubmitOf(buf[..CMD_HEADER_SIZE]))
  {
    if |buf| < CMD_HEADER_SIZE {
      return Failure(IncompleteBuffer(CMD_HEADER_SIZE, |buf|));
    }
    var slice := new Cursor(buf[..CMD_HEADER_SIZE]);
    var transferFlags := slice.ReadU32();
    var transferBufferLength := slice.ReadI32();
    var startFrame := slice.ReadI32();
    var numberOfPackets := slice.ReadI32();
    var interval := slice.ReadI32();
    var setup := slice.data[slice.pos..slice.pos + 8];
    return Success(
        UsbipHeaderCmdSubmit(transferFlags, transferBufferLength, startFrame, numberOfPackets, interval, setup));
  }

  method DecodeRetSubmit(buf: seq<byte>) returns (r: Result<UsbipHeaderRetSubmit, ProtocolError>)
    ensures r == if |buf| < CMD_HEADER_SIZE then Failure(IncompleteBuffer(CMD_HEADER_SIZE, |buf|))
                 else Success(RetSubmitOf(buf[..CMD_HEADER_SIZE]))
  {
    if |buf| < CMD_HEADER_SIZE {
      return Failure(IncompleteBuffer(CMD_HEADER_SIZE, |buf|));
    }
    var slice := new Cursor(buf[..CMD_HEADER_SIZE]);
    var status := slice.ReadI32();
    var actualLength := slice.ReadI32();
    var startFrame := slice.ReadI32();
    var numberOfPackets := slice.ReadI32();
    var errorCount := slice.ReadI32();
    var setup := slice.data[slice.pos..slice.pos + 8];
    return Success(UsbipHeaderRetSubmit(status, actualLength, startFrame, numberOfPackets, errorCount, setup));
  }

  /** The loop that fills the padding array of the two unlink decoders. */
  method DecodePadding(slice: Cursor) returns (padding: Padding)
    requires slice.pos + 24 == |slice.data|
    modifies slice
    ensures padding == Words(slice.data[old(slice.pos)..])
  {
    var words := new u32[6](_ => 0);
    ghost var whole := slice.data[slice.pos..];
    for i := 0 to 6
      invariant slice.pos == old(slice.pos) + 4 * i
      invariant words[..i] == Words(whole)[..i]
    {
      WordsAt(whole, i);
      assert whole[4 * i..4 * i + 4] == slice.data[slice.pos..slice.pos + 4];
      words[i] := slice.ReadU32();
    }
    padding := words[..];
  }

  method DecodeCmdUnlink(buf: seq<byte>) returns (r: Result<UsbipHeaderCmdUnlink, ProtocolError>)
    ensures r == if |buf| < CMD_HEADER_SIZE then Failure(IncompleteBuffer(CMD_HEADER_SIZE, |buf|))
                 else Success(CmdUnlinkOf(buf[..CMD_HEADER_SIZE]))
  {
    if |buf| < CMD_HEADER_SIZE {
      return Failure(IncompleteBuffer(CMD_HEADER_SIZE, |buf|));
    }
    var slice := new Cursor(buf[..CMD_HEADER_SIZE]);
    var seqnum := slice.ReadU32();
    var padding := DecodePadding(slice);
    return Success(UsbipHeaderCmdUnlink(seqnum, padding));
  }

  method DecodeRetUnlink(buf: seq<byte>) returns (r: Result<UsbipHeaderRetUnlink, ProtocolError>)
    ensures r == if |buf| < CMD_HEADER_SIZE then Failure(IncompleteBuffer(CMD_HEADER_SIZE, |buf|))
                 else Success(RetUnlinkOf(buf[..CMD_HEADER_SIZE]))
  {
    if |buf| < CMD_HEADER_SIZE {
      return Failure(IncompleteBuffer(CMD_HEADER_SIZE, |buf|));
    }
    var slice := new Cursor(buf[..CMD_HEADER_SIZE]);
    var status := slice.ReadI32();
    var padding := DecodePadding(slice);
    return Success(UsbipHeaderRetUnlink(status, padding));
  }

  method DecodeHeader(buf: seq<byte>) returns (r: Result<Frame, ProtocolError>)
    ensures r == ParseHeader(buf)
  {
    var basicResult := DecodeBasic(buf);
    if basicResult.Failure? {
      return Failure(basicResult.error);
    }
    var basic := basicResult.value;
    if |buf| < PAYLOAD_OFFSET {
      return Failure(IncompleteBuffer(PAYLOAD_OFFSET, |buf|));
    }
    var header: UsbipHeader;
    var payload: Option<seq<byte>> := None;
    var body := buf[BASIC_HEADER_SIZE..PAYLOAD_OFFSET];
    assert body[..CMD_HEADER_SIZE] == body;
    if basic.command == CMD_SUBMIT {
      var cmdResult := DecodeCmdSubmit(body);
      assert cmdResult.Success?;
      var cmd := cmdResult.value;
      if cmd.transferBufferLength > 0 && basic.direction == USBIP_DIR_OUT {
        var payloadLen := cmd.transferBufferLength;
        if |buf| < PAYLOAD_OFFSET + payloadLen {
          return Failure(IncompleteBuffer(PAYLOAD_OFFSET + payloadLen, |buf|));
        }
        if payloadLen > MAX_PAYLOAD_SIZE {
          return Failure(BufferTooLarge(payloadLen, MAX_PAYLOAD_SIZE));
        }
        payload := Some(buf[PAYLOAD_OFFSET..PAYLOAD_OFFSET + payloadLen]);
      }
      header := UsbipHeader(basic, CmdSubmit(cmd));
    } else if basic.command == RET_SUBMIT {
      var retResult := DecodeRetSubmit(body);
      assert retResult.Success?;
      var ret := retResult.value;
      if ret.actualLength > 0 {
        var payloadLen := ret.actualLength;
        if |buf| < PAYLOAD_OFFSET + payloadLen {
          return Failure(IncompleteBuffer(PAYLOAD_OFFSET + payloadLen, |buf|));
        }
        if payloadLen > MAX_PAYLOAD_SIZE {
          return Failure(BufferTooLarge(payloadLen, MAX_PAYLOAD_SIZE));
        }
        payload := Some(buf[PAYLOAD_OFFSET..PAYLOAD_OFFSET + payloadLen]);
      }
      header := UsbipHeader(basic, RetSubmit(ret));
    } else if basic.command == CMD_UNLINK {
      var cmdResult := DecodeCmdUnlink(body);
      assert cmdResult.Success?;
      header := UsbipHeader(basic, CmdUnlink(cmdResult.value));
    } else if basic.command == RET_UNLINK {
      var retResult := DecodeRetUnlink(body);
      assert retResult.Success?;
      header := UsbipHeader(basic, RetUnlink(retResult.value));
    } else {
      return Failure(InvalidCommand(basic.command));
    }
    return Success(Frame(header, payload));
  }
}
