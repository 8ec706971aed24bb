/**
 The client's receiver as a function of the bytes still to come, and what it accepts: exactly
 the encodings of receivable frames, read off the stream one after the other.
 */
module Receiver {
  import opened Bytes
  import opened Codec
  import opened CodecLaws
  import opened Framing
  import opened Wire
  import opened Wrappers

  datatype Received = Received(result: Result<Frame, ProtocolError>, rest: seq<byte>)

  /** `recv_header_inner`: the outcome, and the bytes left on the stream. */
  function Receive(inbound: seq<byte>): (r: Received)
    ensures r.result.Success? ==> |r.rest| < |inbound|
  {
    if |inbound| < PAYLOAD_OFFSET then Received(Failure(IoError), [])
    else
      var peek := ClientPeek(inbound[..PAYLOAD_OFFSET]);
      if peek.Failure? then Received(Failure(peek.error), inbound[PAYLOAD_OFFSET..])
      else
        var need := PAYLOAD_OFFSET + peek.value;
        if |inbound| < need then Received(Failure(IoError), [])
        else Received(ParseHeader(inbound[..need]), inbound[need..])
  }

  /** Once the peeked number of bytes is read, in whatever pieces, the rest of the call is the decoder. */
  lemma ReceiveWhole(buf: seq<byte>, rest: seq<byte>)
    requires PAYLOAD_OFFSET <= |buf|
    ensures var peek := ClientPeek(buf[..PAYLOAD_OFFSET]);
            && (peek.Failure? && |buf| == PAYLOAD_OFFSET ==> Receive(buf + rest) == Received(Failure(peek.error), rest))
            && (peek.Success? && |buf| == PAYLOAD_OFFSET + peek.value ==>
                  Receive(buf + rest) == Received(ParseHeader(buf), rest))
  {
    hide ClientPeek, ParseHeader;
    assert (buf + rest)[..PAYLOAD_OFFSET] == buf[..PAYLOAD_OFFSET];
    assert (buf + rest)[..|buf|] == buf && (buf + rest)[|buf|..] == rest;
  }

  lemma ReceiveEncoded(f: Frame, rest: seq<byte>)
    requires Receivable(f)
    ensures Receive(FrameBytes(f) + rest) == Received(Success(f), rest)
  {
    hide Receive, ParseHeader, FrameBytes, ClientPeek, DeclaredPayload, FixedOf;
    PeekOfEncoded(f);
    DecodeUndoesEncode(f, []);
    assert |FrameBytes(f)| == PAYLOAD_OFFSET + DeclaredPayload(f.header);
    assert FrameBytes(f) + [] == FrameBytes(f);
    ReceiveWhole(FrameBytes(f), rest);
  }

  lemma DecodedIsReceivable(buf: seq<byte>, payload: seq<byte>)
    requires |buf| == PAYLOAD_OFFSET && ClientPeek(buf) == Success(|payload|)
    requires ParseHeader(buf + payload).Success?
    ensures var f := ParseHeader(buf + payload).value;
            && Receivable(f)
            && |FrameBytes(f)| == |buf + payload|
  {
    ParseSplit(buf, payload);
    PeeksReadFields(buf);
    SignedZero(U32At(buf, NUM_PACKETS_OFFSET));
    if U32At(buf, 0) == CMD_UNLINK || U32At(buf, 0) == RET_UNLINK {
      PaddingAtPacketOffset(buf);
    }
  }

  lemma ReceivedIsEncoded(inbound: seq<byte>)
    requires Receive(inbound).result.Success?
    ensures var r := Receive(inbound);
            && Receivable(r.result.value)
            && inbound == FrameBytes(r.result.value) + r.rest
  {
    hide ClientPeek, ParseHeader, HeaderBytes, FrameBytes, Isochronous, PayloadMatches;
    var buf := inbound[..PAYLOAD_OFFSET];
    var need := PAYLOAD_OFFSET + ClientPeek(buf).value;
    var b := inbound[..need];
    assert b == buf + inbound[PAYLOAD_OFFSET..need];
    DecodedIsReceivable(buf, inbound[PAYLOAD_OFFSET..need]);
    var f := ParseHeader(b).value;
    EncodeUndoesDecode(b);
    WellFormedEncodes(f);
    assert b[..need] == b;
  }

  /**
   One receive succeeds with a frame exactly when the stream starts with the encoding of that
   frame and the frame is receivable; it then consumes that encoding and nothing else.
   */
  lemma ReceiveExactly(inbound: seq<byte>, f: Frame, rest: seq<byte>)
    ensures Receive(inbound) == Received(Success(f), rest) <==> Receivable(f) && inbound == FrameBytes(f) + rest
  {
    if Receive(inbound) == Received(Success(f), rest) {
      ReceivedIsEncoded(inbound);
    }
    if Receivable(f) && inbound == FrameBytes(f) + rest {
      ReceiveEncoded(f, rest);
    }
  }

  // ---------------------------------------------------------------- rejections

  /**
   Every rejection, with its condition and the bytes it consumes: 48 for isochronous or oversize,
   48 plus the announced payload for a decode error, everything when the stream ends inside a
   frame. The decoder never asks for more bytes.
   */
  lemma RejectionsAccounted(inbound: seq<byte>)
    requires Receive(inbound).result.Failure?
    ensures var r := Receive(inbound);
            var e := r.result.error;
            && (e == IoError <==>
                || |inbound| < PAYLOAD_OFFSET
                || (ClientPeek(inbound[..PAYLOAD_OFFSET]).Success?
                    && |inbound| < PAYLOAD_OFFSET + ClientPayload(inbound[..PAYLOAD_OFFSET])))
            && (e == IoError ==> r.rest == [])
            && (e != IoError ==> PAYLOAD_OFFSET <= |inbound|)
            && (e != IoError ==>
                  var buf := inbound[..PAYLOAD_OFFSET];
                  && (e == IsochronousNotSupported <==> U32At(buf, NUM_PACKETS_OFFSET) != 0)
                  && (e.BufferTooLarge? <==>
                      U32At(buf, NUM_PACKETS_OFFSET) == 0 && ClientPayload(buf) > MAX_PAYLOAD_SIZE)
                  && (e.BufferTooLarge? ==> e == BufferTooLarge(ClientPayload(buf), 1_048_576))
                  && (e == IsochronousNotSupported || e.BufferTooLarge? ==> r.rest == inbound[PAYLOAD_OFFSET..])
                  && (e != IsochronousNotSupported && !e.BufferTooLarge? ==>
                        && (e == EncodingError <==> !ValidDirection(U32At(buf, DIRECTION_OFFSET)))
                        && (e == InvalidCommand(U32At(buf, 0)) <==>
                            ValidDirection(U32At(buf, DIRECTION_OFFSET)) && !KnownCommand(U32At(buf, 0)))
                        && PAYLOAD_OFFSET + ClientPayload(buf) <= |inbound|
                        && r.rest == inbound[PAYLOAD_OFFSET + ClientPayload(buf)..])
                  && !e.IncompleteBuffer?)
  {
    if PAYLOAD_OFFSET <= |inbound| {
      var buf := inbound[..PAYLOAD_OFFSET];
      SignedZero(U32At(buf, NUM_PACKETS_OFFSET));
      var peek := ClientPeek(buf);
      if peek.Success? && PAYLOAD_OFFSET + peek.value <= |inbound| {
        var payload := inbound[PAYLOAD_OFFSET..PAYLOAD_OFFSET + peek.value];
        assert inbound[..PAYLOAD_OFFSET + peek.value] == buf + payload;
        ParseSplit(buf, payload);
        ClientPeekRefinesDecoder(buf, payload);
      }
    }
  }

  /**
   A well-formed frame whose word 32 is not zero, which only an unlink can be, is taken for an
   isochronous one, and its 48 bytes are consumed.
   */
  lemma PaddedUnlinkRejected(f: Frame, rest: seq<byte>)
    requires WellFormed(f) && !Receivable(f)
    ensures f.header.u.CmdUnlink? || f.header.u.RetUnlink?
    ensures Receive(FrameBytes(f) + rest) == Received(Failure(IsochronousNotSupported), rest)
  {
    PeekOfEncoded(f);
    assert |FrameBytes(f)| == PAYLOAD_OFFSET;
    assert FrameBytes(f)[..PAYLOAD_OFFSET] == FrameBytes(f);
    ReceiveWhole(FrameBytes(f), rest);
  }

  /** Such a frame: an unlink of request 0 with a one in its third padding word. */
  lemma PaddedUnlinkExists()
    ensures var f := Frame(UsbipHeader(UsbipHeaderBasic(CMD_UNLINK, 1, 0, USBIP_DIR_OUT, 0),
                                       CmdUnlink(UsbipHeaderCmdUnlink(0, [0, 0, 1, 0, 0, 0]))), None);
            WellFormed(f) && Receive(FrameBytes(f)).result == Failure(IsochronousNotSupported)
  {
    var f := Frame(UsbipHeader(UsbipHeaderBasic(CMD_UNLINK, 1, 0, USBIP_DIR_OUT, 0),
                               CmdUnlink(UsbipHeaderCmdUnlink(0, [0, 0, 1, 0, 0, 0]))), None);
    PaddedUnlinkRejected(f, []);
    assert FrameBytes(f) + [] == FrameBytes(f);
  }

  // ---------------------------------------------------------------- whole streams

  predicate AllReceivable(fs: seq<Frame>) {
    forall i | 0 <= i < |fs| :: Receivable(fs[i])
  }

  /** The encodings of a list of frames, one after the other. */
  function Concat(fs: seq<Frame>): (b: seq<byte>) {
    if fs == [] then [] else FrameBytes(fs[0]) + Concat(fs[1..])
  }

  lemma {:induction false} ConcatAppend(fs: seq<Frame>, gs: seq<Frame>)
    ensures Concat(fs + gs) == Concat(fs) + Concat(gs)
  {
    hide WellFormed, FrameBytes;
    if fs == [] {
      assert fs + gs == gs;
    } else {
      assert (fs + gs)[1..] == fs[1..] + gs;
      ConcatAppend(fs[1..], gs);
    }
  }

  /** All frames received up to the first error, and the stream at that point. */
  function ReceiveAll(inbound: seq<byte>): (seq<Frame>, seq<byte>)
    decreases |inbound|
  {
    var r := Receive(inbound);
    if r.result.Failure? then ([], inbound)
    else
      var (fs, rest) := ReceiveAll(r.rest);
      ([r.result.value] + fs, rest)
  }

  /** The receiver loses nothing: what it returns re-encodes to what it consumed, and then it is stuck. */
  lemma {:induction false} ReceiveAllSplitsStream(inbound: seq<byte>)
    ensures var (fs, rest) := ReceiveAll(inbound);
            && AllReceivable(fs)
            && inbound == Concat(fs) + rest
            && Receive(rest).result.Failure?
    decreases |inbound|
  {
    hide Receivable, WellFormed, FrameBytes, Receive;
    var r := Receive(inbound);
    if r.result.Success? {
      ReceivedIsEncoded(inbound);
      ReceiveAllSplitsStream(r.rest);
      var (fs, rest) := ReceiveAll(r.rest);
      assert ([r.result.value] + fs)[1..] == fs;
    }
  }

  lemma ReceiveAllStep(f: Frame, tail: seq<byte>)
    requires Receivable(f)
    ensures ReceiveAll(FrameBytes(f) + tail) == ([f] + ReceiveAll(tail).0, ReceiveAll(tail).1)
  {
    ReceiveEncoded(f, tail);
  }

  /** Encodings are received as sent: whatever follows them, the receiver first returns exactly these frames. */
  lemma {:induction false} ReceiveAllOfConcat(fs: seq<Frame>, rest: seq<byte>)
    requires AllReceivable(fs)
    ensures ReceiveAll(Concat(fs) + rest) == (fs + ReceiveAll(rest).0, ReceiveAll(rest).1)
  {
    hide Receivable, WellFormed, FrameBytes, Receive, ReceiveAll;
    if fs == [] {
      assert Concat(fs) + rest == rest && fs + ReceiveAll(rest).0 == ReceiveAll(rest).0;
    } else {
      var f, tail := fs[0], Concat(fs[1..]) + rest;
      assert Concat(fs) + rest == FrameBytes(f) + tail;
      ReceiveAllOfConcat(fs[1..], rest);
      ReceiveAllStep(f, tail);
      assert [f] + (fs[1..] + ReceiveAll(rest).0) == fs + ReceiveAll(rest).0;
    }
  }

  lemma PrefixIsReceived(inbound: seq<byte>, gs: seq<Frame>)
    requires AllReceivable(gs) && Concat(gs) <= inbound
    ensures gs <= ReceiveAll(inbound).0
  {
    hide Receivable, ReceiveAll, Concat;
    var tail := inbound[|Concat(gs)|..];
    assert inbound == Concat(gs) + tail;
    ReceiveAllOfConcat(gs, tail);
  }

  lemma ReceivedIsPrefix(inbound: seq<byte>, gs: seq<Frame>)
    requires AllReceivable(gs) && gs <= ReceiveAll(inbound).0
    ensures Concat(gs) <= inbound
  {
    hide Receivable, ReceiveAll, Concat;
    ReceiveAllSplitsStream(inbound);
    var (fs, rest) := ReceiveAll(inbound);
    var hs := fs[|gs|..];
    assert fs == gs + hs;
    ConcatAppend(gs, hs);
    assert inbound == Concat(gs) + (Concat(hs) + rest);
  }

  /**
   The frames received are the longest list of receivable frames whose encodings start the
   stream: the lists whose encodings start it are exactly the prefixes of that one.
   */
  lemma ReceivesLongestPrefix(inbound: seq<byte>, gs: seq<Frame>)
    requires AllReceivable(gs)
    ensures Concat(gs) <= inbound <==> gs <= ReceiveAll(inbound).0
  {
    if Concat(gs) <= inbound {
      PrefixIsReceived(inbound, gs);
    }
    if gs <= ReceiveAll(inbound).0 {
      ReceivedIsPrefix(inbound, gs);
    }
  }
}
