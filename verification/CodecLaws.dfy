/** What the header codec promises: it inverts both ways, and decoding is stable and prefix-free. */
module CodecLaws {
  import opened Bytes
  import opened Codec
  import opened Wire
  import opened Wrappers

  // ---------------------------------------------------------------- fixed part

  lemma BasicRoundTrip(h: UsbipHeaderBasic, s: seq<byte>)
    ensures BasicOf(BasicBytes(h) + s) == h
  {
    var b := BasicBytes(h) + s;
    assert b[0..4] == U32Bytes(h.command);
    assert b[4..8] == U32Bytes(h.seqnum);
    assert b[8..12] == U32Bytes(h.devid);
    assert b[12..16] == U32Bytes(h.direction);
    assert b[16..20] == U32Bytes(h.ep);
    U32RoundTrip(h.command);
    U32RoundTrip(h.seqnum);
    U32RoundTrip(h.devid);
    U32RoundTrip(h.direction);
    U32RoundTrip(h.ep);
  }

  lemma BasicRewrite(b: seq<byte>)
    requires BASIC_HEADER_SIZE <= |b|
    ensures BasicBytes(BasicOf(b)) == b[..BASIC_HEADER_SIZE]
  {
    U32Rewrites(b[0..4]);
    U32Rewrites(b[4..8]);
    U32Rewrites(b[8..12]);
    U32Rewrites(b[12..16]);
    U32Rewrites(b[16..20]);
  }

  /** Where each field of a CMD_SUBMIT is, counted from the end of the basic header. */
  lemma CmdSubmitLayout(c: UsbipHeaderCmdSubmit)
    ensures var b := CmdSubmitBytes(c);
            && b[0..4] == U32Bytes(c.transferFlags)
            && b[4..8] == I32Bytes(c.transferBufferLength)
            && b[8..12] == I32Bytes(c.startFrame)
            && b[12..16] == I32Bytes(c.numberOfPackets)
            && b[16..20] == I32Bytes(c.interval)
            && b[20..28] == c.setup
  {
    hide U32Bytes, I32Bytes;
  }

  lemma RetSubmitLayout(r: UsbipHeaderRetSubmit)
    ensures var b := RetSubmitBytes(r);
            && b[0..4] == I32Bytes(r.status)
            && b[4..8] == I32Bytes(r.actualLength)
            && b[8..12] == I32Bytes(r.startFrame)
            && b[12..16] == I32Bytes(r.numberOfPackets)
            && b[16..20] == I32Bytes(r.errorCount)
            && b[20..28] == r.setup
  {
    hide I32Bytes;
  }

  /** An unlink's word comes first, then the padding word by word. */
  lemma UnlinkLayout(c: UsbipHeaderCmdUnlink, r: UsbipHeaderRetUnlink, i: nat)
    requires i < 6
    ensures CmdUnlinkBytes(c)[0..4] == U32Bytes(c.seqnum) && U32At(CmdUnlinkBytes(c), 4 + 4 * i) == c.padding[i]
    ensures RetUnlinkBytes(r)[0..4] == I32Bytes(r.status) && U32At(RetUnlinkBytes(r), 4 + 4 * i) == r.padding[i]
  {
    hide U32Bytes, I32Bytes, WordsBytes, Words;
    WordsRoundTrip(c.padding);
    WordsRoundTrip(r.padding);
    WordsAt(WordsBytes(c.padding), i);
    WordsAt(WordsBytes(r.padding), i);
    assert CmdUnlinkBytes(c)[4 + 4 * i..8 + 4 * i] == WordsBytes(c.padding)[4 * i..4 * i + 4];
    assert RetUnlinkBytes(r)[4 + 4 * i..8 + 4 * i] == WordsBytes(r.padding)[4 * i..4 * i + 4];
  }

  lemma CmdSubmitRoundTrip(c: UsbipHeaderCmdSubmit)
    ensures CmdSubmitOf(CmdSubmitBytes(c)) == c
  {
    CmdSubmitLayout(c);
    U32RoundTrip(c.transferFlags);
    I32RoundTrip(c.transferBufferLength);
    I32RoundTrip(c.startFrame);
    I32RoundTrip(c.numberOfPackets);
    I32RoundTrip(c.interval);
  }

  lemma RetSubmitRoundTrip(r: UsbipHeaderRetSubmit)
    ensures RetSubmitOf(RetSubmitBytes(r)) == r
  {
    RetSubmitLayout(r);
    I32RoundTrip(r.status);
    I32RoundTrip(r.actualLength);
    I32RoundTrip(r.startFrame);
    I32RoundTrip(r.numberOfPackets);
    I32RoundTrip(r.errorCount);
  }

  lemma UnlinkRoundTrip(c: UsbipHeaderCmdUnlink, r: UsbipHeaderRetUnlink)
    ensures CmdUnlinkOf(CmdUnlinkBytes(c)) == c
    ensures RetUnlinkOf(RetUnlinkBytes(r)) == r
  {
    assert CmdUnlinkBytes(c)[0..4] == U32Bytes(c.seqnum) && CmdUnlinkBytes(c)[4..] == WordsBytes(c.padding);
    assert RetUnlinkBytes(r)[0..4] == I32Bytes(r.status) && RetUnlinkBytes(r)[4..] == WordsBytes(r.padding);
    U32RoundTrip(c.seqnum);
    I32RoundTrip(r.status);
    WordsRoundTrip(c.padding);
    WordsRoundTrip(r.padding);
  }

  lemma BodyRoundTrip(h: UsbipHeader)
    requires h.TagAgrees() && KnownCommand(h.base.command)
    ensures BodyOf(h.base.command, BodyBytes(h.u)) == h.u
  {
    match h.u
    case CmdSubmit(c) => CmdSubmitRoundTrip(c);
    case RetSubmit(r) => RetSubmitRoundTrip(r);
    case CmdUnlink(c) => UnlinkRoundTrip(c, UsbipHeaderRetUnlink(0, c.padding));
    case RetUnlink(r) => UnlinkRoundTrip(UsbipHeaderCmdUnlink(0, r.padding), r);
  }

  lemma SubmitRewrite(b: seq<byte>)
    requires |b| == CMD_HEADER_SIZE
    ensures CmdSubmitBytes(CmdSubmitOf(b)) == b
    ensures RetSubmitBytes(RetSubmitOf(b)) == b
  {
    hide U32Bytes, U32Of, I32Bytes, I32Of;
    U32Rewrites(b[0..4]);
    U32Rewrites(b[4..8]);
    U32Rewrites(b[8..12]);
    U32Rewrites(b[12..16]);
    U32Rewrites(b[16..20]);
    assert b[0..4] + b[4..8] + b[8..12] + b[12..16] + b[16..20] + b[20..28] == b;
  }

  lemma UnlinkRewrite(b: seq<byte>)
    requires |b| == CMD_HEADER_SIZE
    ensures CmdUnlinkBytes(CmdUnlinkOf(b)) == b
    ensures RetUnlinkBytes(RetUnlinkOf(b)) == b
  {
    hide U32Bytes, U32Of, I32Bytes, I32Of, Words, WordsBytes;
    U32Rewrites(b[0..4]);
    WordsRewrite(b[4..]);
    assert b[0..4] + b[4..] == b;
  }

  lemma BodyRewrite(command: u32, b: seq<byte>)
    requires |b| == CMD_HEADER_SIZE && KnownCommand(command)
    ensures BodyBytes(BodyOf(command, b)) == b
  {
    hide CmdSubmitBytes, RetSubmitBytes, CmdUnlinkBytes, RetUnlinkBytes;
    hide CmdSubmitOf, RetSubmitOf, CmdUnlinkOf, RetUnlinkOf;
    SubmitRewrite(b);
    UnlinkRewrite(b);
  }

  lemma FixedRoundTrip(h: UsbipHeader, s: seq<byte>)
    requires h.TagAgrees() && KnownCommand(h.base.command)
    ensures BasicOf(FixedBytes(h) + s) == h.base
    ensures FixedOf(FixedBytes(h) + s) == h
  {
    var b := FixedBytes(h) + s;
    assert b == BasicBytes(h.base) + (BodyBytes(h.u) + s);
    BasicRoundTrip(h.base, BodyBytes(h.u) + s);
    assert BasicOf(b).command == U32At(b, 0);
    assert b[BASIC_HEADER_SIZE..PAYLOAD_OFFSET] == BodyBytes(h.u);
    BodyRoundTrip(h);
  }

  /** Where each field of the basic header is on the wire; the command follows at offset 20. */
  lemma BasicLayout(h: UsbipHeader)
    ensures var b := FixedBytes(h);
            && b[0..4] == U32Bytes(h.base.command)
            && b[4..8] == U32Bytes(h.base.seqnum)
            && b[8..12] == U32Bytes(h.base.devid)
            && b[12..16] == U32Bytes(h.base.direction)
            && b[16..20] == U32Bytes(h.base.ep)
            && b[20..48] == BodyBytes(h.u)
  {
    hide U32Bytes, BodyBytes;
  }

  lemma FixedRewrite(b: seq<byte>)
    requires PAYLOAD_OFFSET <= |b| && KnownCommand(U32At(b, 0))
    ensures FixedBytes(FixedOf(b)) == b[..PAYLOAD_OFFSET]
  {
    BasicRewrite(b);
    BodyRewrite(U32At(b, 0), b[BASIC_HEADER_SIZE..PAYLOAD_OFFSET]);
    assert b[..PAYLOAD_OFFSET] == b[..BASIC_HEADER_SIZE] + b[BASIC_HEADER_SIZE..PAYLOAD_OFFSET];
  }

  // ---------------------------------------------------------------- split at the header

  lemma BasicOfExtension(b: seq<byte>, s: seq<byte>)
    requires BASIC_HEADER_SIZE <= |b|
    ensures BasicOf(b + s) == BasicOf(b)
    ensures U32At(b + s, 0) == U32At(b, 0) && U32At(b + s, 12) == U32At(b, 12)
  {
    var e := b + s;
    assert e[0..4] == b[0..4];
    assert e[4..8] == b[4..8];
    assert e[8..12] == b[8..12];
    assert e[12..16] == b[12..16];
    assert e[16..20] == b[16..20];
  }

  lemma FixedOfExtension(b: seq<byte>, s: seq<byte>)
    requires PAYLOAD_OFFSET <= |b| && KnownCommand(U32At(b, 0))
    ensures U32At(b + s, 0) == U32At(b, 0)
    ensures FixedOf(b + s) == FixedOf(b)
  {
    BasicOfExtension(b, s);
    assert (b + s)[BASIC_HEADER_SIZE..PAYLOAD_OFFSET] == b[BASIC_HEADER_SIZE..PAYLOAD_OFFSET];
  }

  /** How decoding goes once the first 48 bytes are there, in terms of those and of what follows. */
  lemma ParseSplit(buf: seq<byte>, tail: seq<byte>)
    requires |buf| == PAYLOAD_OFFSET
    ensures U32At(buf + tail, 0) == U32At(buf, 0) && U32At(buf + tail, 12) == U32At(buf, 12)
    ensures KnownCommand(U32At(buf, 0)) ==> FixedOf(buf + tail) == FixedOf(buf)
    ensures ParseHeader(buf + tail) ==
            if !ValidDirection(U32At(buf, 12)) then Failure(EncodingError)
            else if !KnownCommand(U32At(buf, 0)) then Failure(InvalidCommand(U32At(buf, 0)))
            else
              var h := FixedOf(buf);
              var n := DeclaredPayload(h);
              if |tail| < n then Failure(IncompleteBuffer(PAYLOAD_OFFSET + n, PAYLOAD_OFFSET + |tail|))
              else if n > MAX_PAYLOAD_SIZE then Failure(BufferTooLarge(n, MAX_PAYLOAD_SIZE))
              else Success(Frame(h, if n == 0 then None else Some(tail[..n])))
  {
    hide FixedOf, DeclaredPayload;
    BasicOfExtension(buf, tail);
    if KnownCommand(U32At(buf, 0)) {
      FixedOfExtension(buf, tail);
      var n := DeclaredPayload(FixedOf(buf));
      if n <= |tail| {
        assert (buf + tail)[PAYLOAD_OFFSET..PAYLOAD_OFFSET + n] == tail[..n];
      }
    }
  }

  // ---------------------------------------------------------------- round trips

  /** The header and the payload of a frame, as bytes. */
  function FrameBytes(f: Frame): (b: seq<byte>)
    ensures PAYLOAD_OFFSET <= |b|
    ensures WellFormed(f) ==> |b| == PAYLOAD_OFFSET + DeclaredPayload(f.header)
  {
    FixedBytes(f.header) + if f.payload.Some? then f.payload.value else []
  }

  /** For a well-formed frame they are what the encoder produces, without error. */
  lemma WellFormedEncodes(f: Frame)
    requires WellFormed(f)
    ensures HeaderBytes(f.header, f.payload) == Success(FrameBytes(f))
  {
    assert FixedBytes(f.header) + [] == FixedBytes(f.header);
  }

  lemma BasicFields(b: seq<byte>)
    requires BASIC_HEADER_SIZE <= |b|
    ensures BasicOf(b).command == U32At(b, 0) && BasicOf(b).direction == U32At(b, 12)
  {
  }

  /** Decoding an encoded well-formed frame, whatever follows it, gives the frame back. */
  lemma DecodeUndoesEncode(f: Frame, suffix: seq<byte>)
    requires WellFormed(f)
    ensures ParseHeader(FrameBytes(f) + suffix) == Success(f)
  {
    hide FixedBytes, FixedOf, ParseHeader, BasicOf, Isochronous, DeclaredPayload;
    var h, fixed := f.header, FixedBytes(f.header);
    var payload := if f.payload.Some? then f.payload.value else [];
    FixedRoundTrip(h, []);
    assert fixed + [] == fixed;
    assert BasicOf(fixed).command == h.base.command && BasicOf(fixed).direction == h.base.direction;
    BasicFields(fixed);
    ParseSplit(fixed, payload + suffix);
    assert FrameBytes(f) + suffix == fixed + (payload + suffix);
    assert (payload + suffix)[..|payload|] == payload;
  }

  /** The frame of a successful decode starts the buffer: re-encoding gives back its first bytes. */
  lemma EncodeUndoesDecode(b: seq<byte>)
    requires ParseHeader(b).Success?
    ensures var f := ParseHeader(b).value;
            && f.header.TagAgrees()
            && PAYLOAD_OFFSET + DeclaredPayload(f.header) <= |b|
            && (WellFormed(f) <==> !Isochronous(f.header))
            && (Isochronous(f.header) ==> HeaderBytes(f.header, f.payload) == Failure(IsochronousNotSupported))
            && (!Isochronous(f.header) ==>
                  HeaderBytes(f.header, f.payload) == Success(b[..PAYLOAD_OFFSET + DeclaredPayload(f.header)]))
  {
    FixedRewrite(b);
    var n := DeclaredPayload(FixedOf(b));
    assert b[..PAYLOAD_OFFSET + n] == b[..PAYLOAD_OFFSET] + b[PAYLOAD_OFFSET..PAYLOAD_OFFSET + n];
  }

  /**
   The encoder does not compare the payload's length with the header. What it accepts survives
   decoding exactly when the frame is well-formed.
   */
  lemma RoundTripExactly(f: Frame)
    requires f.header.TagAgrees() && HeaderBytes(f.header, f.payload).Success?
    ensures ParseHeader(HeaderBytes(f.header, f.payload).value) == Success(f) <==> PayloadMatches(f)
  {
    var b := HeaderBytes(f.header, f.payload).value;
    if PayloadMatches(f) {
      WellFormedEncodes(f);
      DecodeUndoesEncode(f, []);
      assert b + [] == b;
    } else if ParseHeader(b) == Success(f) {
      EncodeUndoesDecode(b);
      assert false;
    }
  }

  /** An OUT submit announcing one byte but handed two: encoded without complaint, decoded to another frame. */
  lemma MismatchedPayloadIsNotPreserved()
    ensures var h := UsbipHeader(UsbipHeaderBasic(CMD_SUBMIT, 0, 0, USBIP_DIR_OUT, 0),
                                 CmdSubmit(UsbipHeaderCmdSubmit(0, 1, 0, 0, 0, [0, 0, 0, 0, 0, 0, 0, 0])));
            var f := Frame(h, Some([7, 8]));
            && HeaderBytes(f.header, f.payload).Success?
            && ParseHeader(HeaderBytes(f.header, f.payload).value) == Success(Frame(h, Some([7])))
  {
    var h := UsbipHeader(UsbipHeaderBasic(CMD_SUBMIT, 0, 0, USBIP_DIR_OUT, 0),
                         CmdSubmit(UsbipHeaderCmdSubmit(0, 1, 0, 0, 0, [0, 0, 0, 0, 0, 0, 0, 0])));
    DecodeUndoesEncode(Frame(h, Some([7])), [8]);
    assert HeaderBytes(h, Some([7, 8])).value == FrameBytes(Frame(h, Some([7]))) + [8];
  }

  /** A submit announcing one isochronous packet: decoded without complaint, but not encodable. */
  lemma IsochronousIsDecodedNotEncoded()
    ensures var h := UsbipHeader(UsbipHeaderBasic(CMD_SUBMIT, 0, 0, USBIP_DIR_IN, 0),
                                 CmdSubmit(UsbipHeaderCmdSubmit(0, 0, 0, 1, 0, [0, 0, 0, 0, 0, 0, 0, 0])));
            && ParseHeader(FixedBytes(h)) == Success(Frame(h, None))
            && HeaderBytes(h, None) == Failure(IsochronousNotSupported)
  {
    hide FixedBytes, FixedOf, ParseHeader, BasicOf;
    var h := UsbipHeader(UsbipHeaderBasic(CMD_SUBMIT, 0, 0, USBIP_DIR_IN, 0),
                         CmdSubmit(UsbipHeaderCmdSubmit(0, 0, 0, 1, 0, [0, 0, 0, 0, 0, 0, 0, 0])));
    FixedRoundTrip(h, []);
    assert FixedBytes(h) + [] == FixedBytes(h);
    BasicFields(FixedBytes(h));
    ParseSplit(FixedBytes(h), []);
  }

  // ---------------------------------------------------------------- the wire format

  /** The fields of the basic header are the words at their offsets in the whole header. */
  predicate BasicAt(b: seq<byte>, h: UsbipHeaderBasic)
    requires 48 <= |b|
  {
    && U32At(b, 0) == h.command
    && U32At(b, 4) == h.seqnum
    && U32At(b, 8) == h.devid
    && U32At(b, 12) == h.direction
    && U32At(b, 16) == h.ep
  }

  predicate CmdSubmitAt(b: seq<byte>, c: UsbipHeaderCmdSubmit)
    requires 48 <= |b|
  {
    && U32At(b, 20) == c.transferFlags
    && I32At(b, 24) == c.transferBufferLength
    && I32At(b, 28) == c.startFrame
    && I32At(b, 32) == c.numberOfPackets
    && I32At(b, 36) == c.interval
    && b[40..48] == c.setup
  }

  predicate RetSubmitAt(b: seq<byte>, r: UsbipHeaderRetSubmit)
    requires 48 <= |b|
  {
    && I32At(b, 20) == r.status
    && I32At(b, 24) == r.actualLength
    && I32At(b, 28) == r.startFrame
    && I32At(b, 32) == r.numberOfPackets
    && I32At(b, 36) == r.errorCount
    && b[40..48] == r.setup
  }

  predicate PaddingAt(b: seq<byte>, padding: Padding)
    requires 48 <= |b|
  {
    forall i | 0 <= i < 6 :: U32At(b, 24 + 4 * i) == padding[i]
  }

  /** Every field of a header, at its place in a whole frame. */
  predicate HeaderAt(b: seq<byte>, h: UsbipHeader)
    requires 48 <= |b|
  {
    && BasicAt(b, h.base)
    && match h.u
       case CmdSubmit(c) => CmdSubmitAt(b, c)
       case RetSubmit(r) => RetSubmitAt(b, r)
       case CmdUnlink(c) => U32At(b, 20) == c.seqnum && PaddingAt(b, c.padding)
       case RetUnlink(r) => I32At(b, 20) == r.status && PaddingAt(b, r.padding)
  }

  lemma BodyWord(b: seq<byte>, i: nat)
    requires 48 <= |b| && i <= 24
    ensures U32At(b[20..48], i) == U32At(b, 20 + i) && I32At(b[20..48], i) == I32At(b, 20 + i)
  {
    var word, there := b[20..48][i..i + 4], b[20 + i..24 + i];
    assert forall k | 0 <= k < 4 :: word[k] == there[k];
    assert word == there;
  }

  lemma SubmitFieldsAt(b: seq<byte>)
    requires 48 <= |b|
    ensures CmdSubmitAt(b, CmdSubmitOf(b[20..48]))
    ensures RetSubmitAt(b, RetSubmitOf(b[20..48]))
  {
    hide U32At, I32At;
    BodyWord(b, 0);
    BodyWord(b, 4);
    BodyWord(b, 8);
    BodyWord(b, 12);
    BodyWord(b, 16);
  }

  lemma UnlinkFieldsAt(b: seq<byte>)
    requires 48 <= |b|
    ensures U32At(b, 20) == CmdUnlinkOf(b[20..48]).seqnum && PaddingAt(b, CmdUnlinkOf(b[20..48]).padding)
    ensures I32At(b, 20) == RetUnlinkOf(b[20..48]).status && PaddingAt(b, RetUnlinkOf(b[20..48]).padding)
  {
    hide U32Of, Words;
    var words := b[20..48][4..];
    BodyWord(b, 0);
    forall i | 0 <= i < 6
      ensures U32At(b, 24 + 4 * i) == Words(words)[i]
    {
      WordsAt(words, i);
      var word, there := words[4 * i..4 * i + 4], b[24 + 4 * i..28 + 4 * i];
      assert forall k | 0 <= k < 4 :: word[k] == there[k];
      assert word == there;
    }
  }

  lemma FieldsAt(b: seq<byte>)
    requires 48 <= |b| && KnownCommand(U32At(b, 0))
    ensures HeaderAt(b, FixedOf(b))
  {
    hide U32At, I32At, CmdSubmitOf, RetSubmitOf, CmdUnlinkOf, RetUnlinkOf, CmdSubmitAt, RetSubmitAt, PaddingAt;
    SubmitFieldsAt(b);
    UnlinkFieldsAt(b);
  }

  /** Whatever the encoder produces has every field of the header at its place, and then the payload. */
  lemma EncodedLayout(h: UsbipHeader, payload: Option<seq<byte>>)
    requires h.TagAgrees() && HeaderBytes(h, payload).Success?
    ensures var b := HeaderBytes(h, payload).value;
            && 48 <= |b|
            && HeaderAt(b, h)
            && b[48..] == if DeclaredPayload(h) == 0 then [] else payload.value
  {
    hide FixedBytes, FixedOf, HeaderAt, DeclaredPayload, Isochronous;
    var b := HeaderBytes(h, payload).value;
    var tail := if DeclaredPayload(h) == 0 then [] else payload.value;
    assert b == FixedBytes(h) + tail;
    FixedRoundTrip(h, tail);
    FieldsAt(b);
  }

  /** Whatever the decoder accepts has the fields that stand at their places, and the payload that follows. */
  lemma DecodedLayout(b: seq<byte>)
    requires ParseHeader(b).Success?
    ensures var Frame(h, payload) := ParseHeader(b).value;
            && 48 <= |b|
            && h.TagAgrees()
            && HeaderAt(b, h)
            && payload == if DeclaredPayload(h) == 0 then None else Some(b[48..][..DeclaredPayload(h)])
  {
    hide FixedOf, HeaderAt, DeclaredPayload;
    FieldsAt(b);
    var n := DeclaredPayload(FixedOf(b));
    assert b[48..][..n] == b[48..48 + n];
  }

  // The two ways in which a header's fields matter to the encoder, by the numbers of the commands.

  predicate AsksForPackets(h: UsbipHeader)
    requires h.TagAgrees()
  {
    match h.base.command
    case 1 => h.u.cmdSubmit.numberOfPackets != 0
    case 3 => h.u.retSubmit.numberOfPackets != 0
    case _ => false
  }

  predicate AnnouncesPayload(h: UsbipHeader)
    requires h.TagAgrees()
  {
    match h.base.command
    case 1 => h.base.direction == 0 && h.u.cmdSubmit.transferBufferLength > 0
    case 3 => h.u.retSubmit.actualLength > 0
    case _ => false
  }

  /** When the encoder fails, and with what. */
  lemma EncodeErrors(h: UsbipHeader, payload: Option<seq<byte>>, e: ProtocolError)
    requires h.TagAgrees()
    ensures var command, valid := h.base.command, h.base.direction <= 1;
            var plain := valid && 1 <= command <= 4 && !AsksForPackets(h);
            HeaderBytes(h, payload) == Failure(e) <==>
            match e
            case EncodingError => !valid || (plain && AnnouncesPayload(h) && payload.None?)
            case InvalidCommand(c) => valid && !(1 <= command <= 4) && c == command
            case IsochronousNotSupported => valid && AsksForPackets(h)
            case BufferTooLarge(size, max) =>
              plain && AnnouncesPayload(h) && payload.Some? && |payload.value| > 1_048_576
              && size == |payload.value| && max == 1_048_576
            case _ => false
  {
    hide FixedBytes;
  }

  /** The payload length that a frame announces, by its words. */
  function AnnouncedAt(b: seq<byte>): nat
    requires 48 <= |b|
  {
    if ((U32At(b, 0) == 1 && U32At(b, 12) == 0) || U32At(b, 0) == 3) && I32At(b, 24) > 0 then I32At(b, 24) else 0
  }

  /** When the decoder fails, and with what, by the words of the buffer. */
  lemma DecodeErrors(b: seq<byte>, e: ProtocolError)
    ensures ParseHeader(b) == Failure(e) <==>
            match e
            case IncompleteBuffer(needed, available) =>
              && available == |b| < needed
              && (if |b| < 20 then needed == 20
                  else U32At(b, 12) <= 1 &&
                       if |b| < 48 then needed == 48
                       else 1 <= U32At(b, 0) <= 4 && needed == 48 + AnnouncedAt(b))
            case EncodingError => 20 <= |b| && U32At(b, 12) > 1
            case InvalidCommand(command) =>
              48 <= |b| && U32At(b, 12) <= 1 && !(1 <= U32At(b, 0) <= 4) && command == U32At(b, 0)
            case BufferTooLarge(size, max) =>
              && 48 <= |b| && U32At(b, 12) <= 1 && 1 <= U32At(b, 0) <= 4
              && size == AnnouncedAt(b) > 1_048_576 == max && 48 + size <= |b|
            case _ => false
  {
    hide U32Of, I32Of, CmdUnlinkOf, RetUnlinkOf, PaddingAt;
    if 48 <= |b| && KnownCommand(U32At(b, 0)) {
      FieldsAt(b);
      assert DeclaredPayload(FixedOf(b)) == AnnouncedAt(b);
    }
  }

  // ---------------------------------------------------------------- stability

  predicate Incomplete(r: Result<Frame, ProtocolError>) {
    r.Failure? && r.error.IncompleteBuffer?
  }

  /**
   Appended bytes change no outcome other than IncompleteBuffer, and that one keeps its
   `needed` as long as the buffer stays shorter than it.
   */
  lemma DecodeIsStable(b: seq<byte>, s: seq<byte>)
    ensures !Incomplete(ParseHeader(b)) ==> ParseHeader(b + s) == ParseHeader(b)
    ensures Incomplete(ParseHeader(b)) ==>
              var needed := ParseHeader(b).error.needed;
              && |b| < needed
              && (|b + s| < needed ==> ParseHeader(b + s) == Failure(IncompleteBuffer(needed, |b + s|)))
  {
    if BASIC_HEADER_SIZE <= |b| {
      BasicOfExtension(b, s);
      if PAYLOAD_OFFSET <= |b| && KnownCommand(U32At(b, 0)) {
        FixedOfExtension(b, s);
        var n := DeclaredPayload(FixedOf(b));
        if PAYLOAD_OFFSET + n <= |b| {
          assert (b + s)[PAYLOAD_OFFSET..PAYLOAD_OFFSET + n] == b[PAYLOAD_OFFSET..PAYLOAD_OFFSET + n];
        }
      }
    }
  }

  /** The buffer lengths that a reader goes through when it always grows to `needed`. */
  function Rounds(stream: seq<byte>, have: nat): (lengths: seq<nat>)
    requires have <= |stream|
    ensures forall i | 0 <= i < |lengths| :: have < lengths[i] <= |stream|
    decreases |stream| - have
  {
    var r := ParseHeader(stream[..have]);
    if Incomplete(r) && have < r.error.needed <= |stream| then [r.error.needed] + Rounds(stream, r.error.needed) else []
  }

  /** Where such a reader stops. */
  function Settled(stream: seq<byte>, have: nat): (length: nat)
    requires have <= |stream|
    ensures have <= length <= |stream|
  {
    var ls := Rounds(stream, have);
    if ls == [] then have else ls[|ls| - 1]
  }

  /** It stops with the answer for the whole stream, or with a stream too short to give one. */
  lemma {:induction false} GrowingSettles(stream: seq<byte>, have: nat)
    requires have <= |stream|
    ensures Incomplete(ParseHeader(stream)) || ParseHeader(stream[..Settled(stream, have)]) == ParseHeader(stream)
    decreases |stream| - have
  {
    assert stream == stream[..have] + stream[have..];
    DecodeIsStable(stream[..have], stream[have..]);
    if Rounds(stream, have) != [] {
      GrowingSettles(stream, Rounds(stream, have)[0]);
    }
  }

  /** Having the header, the decoder asks at most for the announced payload, and only once. */
  lemma NeededAtHeader(stream: seq<byte>)
    requires PAYLOAD_OFFSET <= |stream|
    requires Incomplete(ParseHeader(stream[..PAYLOAD_OFFSET]))
    ensures KnownCommand(U32At(stream, 0))
    ensures var needed := PAYLOAD_OFFSET + DeclaredPayload(FixedOf(stream));
            && ParseHeader(stream[..PAYLOAD_OFFSET]).error.needed == needed
            && (needed <= |stream| ==> !Incomplete(ParseHeader(stream[..needed])))
  {
    hide ParseHeader, FixedOf, DeclaredPayload, KnownCommand, ValidDirection, U32At;
    var h := stream[..PAYLOAD_OFFSET];
    assert stream == h + stream[PAYLOAD_OFFSET..] && h == h + [];
    ParseSplit(h, stream[PAYLOAD_OFFSET..]);
    ParseSplit(h, []);
    var needed := PAYLOAD_OFFSET + DeclaredPayload(FixedOf(stream));
    if needed <= |stream| {
      var tail := stream[PAYLOAD_OFFSET..needed];
      assert stream[..needed] == h + tail;
      ParseSplit(h, tail);
    }
  }

  lemma RoundsFromHeader(stream: seq<byte>)
    requires PAYLOAD_OFFSET <= |stream|
    ensures var ls := Rounds(stream, PAYLOAD_OFFSET);
            || ls == []
            || (KnownCommand(U32At(stream, 0)) && ls == [PAYLOAD_OFFSET + DeclaredPayload(FixedOf(stream))])
  {
    hide ParseHeader, FixedOf, DeclaredPayload, KnownCommand, ValidDirection, U32At;
    var ls := Rounds(stream, PAYLOAD_OFFSET);
    if ls != [] {
      NeededAtHeader(stream);
      assert Rounds(stream, ls[0]) == [];
    }
  }

  /** Starting from nothing there are at most three rounds: to 20, to 48, and to 48 plus the payload. */
  lemma AtMostThreeRounds(stream: seq<byte>)
    ensures var ls := Rounds(stream, 0);
            && |ls| <= 3
            && (|ls| > 0 ==> ls[0] == BASIC_HEADER_SIZE)
            && (|ls| > 1 ==> ls[1] == PAYLOAD_OFFSET)
            && (|ls| > 2 ==> PAYLOAD_OFFSET <= |stream| && KnownCommand(U32At(stream, 0))
                             && ls[2] == PAYLOAD_OFFSET + DeclaredPayload(FixedOf(stream)))
  {
    var ls := Rounds(stream, 0);
    if ls != [] {
      assert ls == [BASIC_HEADER_SIZE] + Rounds(stream, BASIC_HEADER_SIZE);
      var ms := Rounds(stream, BASIC_HEADER_SIZE);
      if ms != [] {
        assert ms == [PAYLOAD_OFFSET] + Rounds(stream, PAYLOAD_OFFSET);
        RoundsFromHeader(stream);
      }
    }
  }

  /** No well-formed encoding is a proper prefix of another: a stream splits in one way. */
  lemma EncodingsArePrefixFree(f: Frame, s: seq<byte>, g: Frame, t: seq<byte>)
    requires WellFormed(f) && WellFormed(g)
    requires FrameBytes(f) + s == FrameBytes(g) + t
    ensures f == g && s == t
  {
    DecodeUndoesEncode(f, s);
    DecodeUndoesEncode(g, t);
    assert (FrameBytes(f) + s)[|FrameBytes(f)|..] == s;
    assert (FrameBytes(g) + t)[|FrameBytes(g)|..] == t;
  }
}
