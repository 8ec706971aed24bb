/**
 The two receivers' framing. Neither asks the codec how long a frame is: both peek at fixed
 offsets of the first 48 bytes, read that much more, and only then decode. Here the peeks are
 related to the codec.
 */
module Framing {
  import opened Bytes
  import opened Codec
  import opened CodecLaws
  import opened Wire
  import opened Wrappers

  const DIRECTION_OFFSET := 12
  const TFL_OFFSET := 24
  const NUM_PACKETS_OFFSET := 32

  function PositiveOrZero(i: i32): nat {
    if i > 0 then i else 0
  }

  /** The client's payload length, from raw offsets. */
  function ClientPayload(buf: seq<byte>): nat
    requires |buf| == PAYLOAD_OFFSET
  {
    var command := U32At(buf, 0);
    if command == CMD_SUBMIT then
      if U32At(buf, DIRECTION_OFFSET) == USBIP_DIR_OUT then PositiveOrZero(I32At(buf, TFL_OFFSET)) else 0
    else if command == RET_SUBMIT then
      PositiveOrZero(I32At(buf, TFL_OFFSET))
    else
      0
  }

  /** The server's payload length: a RET_SUBMIT is taken to have none. */
  function ServerPayload(buf: seq<byte>): nat
    requires |buf| == PAYLOAD_OFFSET
  {
    if U32At(buf, 0) == CMD_SUBMIT && U32At(buf, DIRECTION_OFFSET) == USBIP_DIR_OUT then
      PositiveOrZero(I32At(buf, TFL_OFFSET))
    else
      0
  }

  function WithinLimit(n: nat): Result<nat, ProtocolError> {
    if n > MAX_PAYLOAD_SIZE then Failure(BufferTooLarge(n, MAX_PAYLOAD_SIZE)) else Success(n)
  }

  /** The client's peek: the number of payload bytes to read next, or an early rejection. */
  function ClientPeek(buf: seq<byte>): Result<nat, ProtocolError>
    requires |buf| == PAYLOAD_OFFSET
  {
    if I32At(buf, NUM_PACKETS_OFFSET) != 0 then Failure(IsochronousNotSupported) else WithinLimit(ClientPayload(buf))
  }

  function ServerPeek(buf: seq<byte>): Result<nat, ProtocolError>
    requires |buf| == PAYLOAD_OFFSET
  {
    WithinLimit(ServerPayload(buf))
  }

  // ---------------------------------------------------------------- peeks against the codec

  /**
   The payload length of each peek, for every command, by the words at offsets 0, 12 and 24. Only
   the client looks for a payload in a RET_SUBMIT (3); neither does in an unlink or an unknown frame.
   */
  lemma PeekedLength(buf: seq<byte>)
    requires |buf| == 48
    ensures var command, direction, length := U32At(buf, 0), U32At(buf, 12), I32At(buf, 24);
            && (command == 1 && direction == 0 && length > 0 ==> ClientPayload(buf) == ServerPayload(buf) == length)
            && (command == 1 && (direction != 0 || length <= 0) ==> ClientPayload(buf) == ServerPayload(buf) == 0)
            && (command == 3 ==> ServerPayload(buf) == 0 && ClientPayload(buf) == if length > 0 then length else 0)
            && (command != 1 && command != 3 ==> ClientPayload(buf) == ServerPayload(buf) == 0)
  {
  }

  /** The words that the peeks read are the fields that the decoder finds. */
  lemma PeeksReadFields(buf: seq<byte>)
    requires |buf| == PAYLOAD_OFFSET && KnownCommand(U32At(buf, 0))
    ensures var h := FixedOf(buf);
            && (ValidDirection(h.base.direction) ==> ClientPayload(buf) == DeclaredPayload(h))
            && (h.base.command != RET_SUBMIT ==> ServerPayload(buf) == DeclaredPayload(h))
            && (h.base.command == CMD_SUBMIT || h.base.command == RET_SUBMIT ==>
                  (Isochronous(h) <==> I32At(buf, NUM_PACKETS_OFFSET) != 0))
  {
    var body := buf[BASIC_HEADER_SIZE..PAYLOAD_OFFSET];
    assert body[4..8] == buf[24..28];
    assert body[12..16] == buf[32..36];
  }

  /** The word at offset 32 of an unlink is its third padding word. */
  lemma PaddingAtPacketOffset(buf: seq<byte>)
    requires PAYLOAD_OFFSET <= |buf|
    requires U32At(buf, 0) == CMD_UNLINK || U32At(buf, 0) == RET_UNLINK
    ensures var u := FixedOf(buf).u;
            (if u.CmdUnlink? then u.cmdUnlink.padding[2] else u.retUnlink.padding[2]) == U32At(buf, NUM_PACKETS_OFFSET)
  {
    var body := buf[BASIC_HEADER_SIZE..PAYLOAD_OFFSET];
    WordsAt(body[4..], 2);
    assert body[4..][8..12] == buf[32..36];
  }

  lemma SignedZero(u: u32)
    ensures Signed(u) == 0 <==> u == 0
  {
  }

  /**
   Once the client's peek is followed, the decoder can neither ask for more bytes nor find the
   payload too large, and the payload it returns is exactly what was just read.
   */
  lemma ClientPeekRefinesDecoder(buf: seq<byte>, payload: seq<byte>)
    requires |buf| == PAYLOAD_OFFSET && ClientPeek(buf) == Success(|payload|)
    ensures var r := ParseHeader(buf + payload);
            && (r.Failure? ==> !r.error.IncompleteBuffer? && !r.error.BufferTooLarge?)
            && (r.Success? ==> r.value.payload == if payload == [] then None else Some(payload))
  {
    ParseSplit(buf, payload);
    if KnownCommand(U32At(buf, 0)) {
      PeeksReadFields(buf);
    }
    assert payload[..|payload|] == payload;
  }

  /**
   The server's peek refines the decoder in the same way unless the frame is a RET_SUBMIT that
   announces a payload: then, and only then, the decoder asks for the bytes nobody read.
   */
  lemma ServerPeekRefinesDecoder(buf: seq<byte>, payload: seq<byte>)
    requires |buf| == PAYLOAD_OFFSET && ServerPeek(buf) == Success(|payload|)
    ensures var r := ParseHeader(buf + payload);
            && (r.Failure? && r.error.IncompleteBuffer? <==>
                && U32At(buf, 0) == RET_SUBMIT && I32At(buf, TFL_OFFSET) > 0
                && ValidDirection(U32At(buf, DIRECTION_OFFSET)))
            && (r.Failure? ==> !r.error.BufferTooLarge?)
            && (r.Success? ==> r.value.payload == if payload == [] then None else Some(payload))
  {
    ParseSplit(buf, payload);
    if KnownCommand(U32At(buf, 0)) {
      PeeksReadFields(buf);
      assert buf[BASIC_HEADER_SIZE..PAYLOAD_OFFSET][4..8] == buf[24..28];
    }
    assert payload[..|payload|] == payload;
  }

  // ---------------------------------------------------------------- peeks on encoded frames

  /** Frames that the client's receiver can get: word 32 is zero, which for an unlink is padding. */
  predicate Receivable(f: Frame) {
    && WellFormed(f)
    && (f.header.u.CmdUnlink? ==> f.header.u.cmdUnlink.padding[2] == 0)
    && (f.header.u.RetUnlink? ==> f.header.u.retUnlink.padding[2] == 0)
  }

  /** On the encoding of a well-formed frame the peeks give the length of its payload. */
  lemma PeekOfEncoded(f: Frame)
    requires WellFormed(f)
    ensures var b := FrameBytes(f)[..PAYLOAD_OFFSET];
            && U32At(FrameBytes(f), 0) == f.header.base.command
            && FixedOf(FrameBytes(f)) == f.header
            && (f.header.base.command != RET_SUBMIT ==> ServerPeek(b) == Success(DeclaredPayload(f.header)))
            && ClientPeek(b) ==
               if Receivable(f) then Success(DeclaredPayload(f.header)) else Failure(IsochronousNotSupported)
  {
    var b := FrameBytes(f)[..PAYLOAD_OFFSET];
    var p := FrameBytes(f)[PAYLOAD_OFFSET..];
    assert FrameBytes(f) == b + p && FrameBytes(f) == FrameBytes(f) + [];
    DecodeUndoesEncode(f, []);
    ParseSplit(b, p);
    FixedOfExtension(b, p);
    PeeksReadFields(b);
    SignedZero(U32At(b, NUM_PACKETS_OFFSET));
    if f.header.u.CmdUnlink? || f.header.u.RetUnlink? {
      PaddingAtPacketOffset(b);
    }
  }
}
