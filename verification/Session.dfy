/**
 `TcpSession`: the client end of an established connection. The class is the code; its methods
 are proved equal to `Step` on `SessionState`, and the laws are about whole runs of `Step`.
 */
module Session {
  import opened Bytes
  import opened Codec
  import opened CodecLaws
  import opened Framing
  import Handshake
  import ImportCodec
  import opened Receiver
  import opened Transport
  import opened Wire
  import opened Wrappers

  const SEQNUMS := 0x1_0000_0000

  const SOME_HEADER := UsbipHeader(UsbipHeaderBasic(CMD_UNLINK, 0, 0, 0, 0),
                                  CmdUnlink(UsbipHeaderCmdUnlink(0, [0, 0, 0, 0, 0, 0])))

  type TaggedHeader = h: UsbipHeader | h.TagAgrees() witness SOME_HEADER

  datatype SessionState = SessionState(
    nextSeqnum: u32,
    closed: bool,
    inbound: seq<byte>,
    outbound: seq<byte>,
    capacity: nat)

  datatype Op = Send(header: TaggedHeader, payload: Option<seq<byte>>) | Recv | RecvOrClose

  datatype Outcome = Sent | Got(frame: Frame) | Failed(error: ProtocolError)

  function Stamp(h: TaggedHeader, seqnum: u32): TaggedHeader {
    h.(base := h.base.(seqnum := seqnum))
  }

  // ---------------------------------------------------------------- one operation

  function Write(s: SessionState, data: seq<byte>): SessionState {
    var n := if |data| <= s.capacity then |data| else s.capacity;
    s.(outbound := s.outbound + data[..n], capacity := s.capacity - n)
  }

  function SendStep(s: SessionState, h: TaggedHeader, payload: Option<seq<byte>>): (SessionState, Outcome) {
    if s.closed then (s, Failed(IoError))
    else
      var t := s.(nextSeqnum := (s.nextSeqnum + 1) % SEQNUMS);
      var encoded := HeaderBytes(Stamp(h, s.nextSeqnum), payload);
      if encoded.Failure? then (t, Failed(encoded.error))
      else (Write(t, encoded.value), if |encoded.value| <= s.capacity then Sent else Failed(IoError))
  }

  function InnerStep(s: SessionState): (SessionState, Outcome) {
    var r := Receive(s.inbound);
    (s.(inbound := r.rest), if r.result.Success? then Got(r.result.value) else Failed(r.result.error))
  }

  function Step(s: SessionState, op: Op): (SessionState, Outcome) {
    match op
    case Send(h, payload) => SendStep(s, h, payload)
    case Recv => if s.closed then (s, Failed(IoError)) else InnerStep(s)
    case RecvOrClose =>
      var (t, r) := InnerStep(s);
      if r.Failed? then (t.(closed := true, capacity := 0), r) else (t, r)
  }

  class TcpSession {
    const stream: ByteStream
    var nextSeqnum: u32
    const devid: u32
    const busid: seq<byte>
    const reply: OpRepImport
    var closed: bool

    ghost function State(): SessionState
      reads this, stream
    {
      SessionState(nextSeqnum, closed, stream.inbound, stream.outbound, stream.capacity)
    }

    /** The session of a completed handshake. */
    constructor (stream: ByteStream, busid: seq<byte>, devid: u32, reply: OpRepImport)
      ensures this.stream == stream && this.busid == busid && this.devid == devid && this.reply == reply
      ensures nextSeqnum == 0 && !closed
    {
      this.stream, this.busid, this.devid, this.reply := stream, busid, devid, reply;
      nextSeqnum, closed := 0, false;
    }

    /** `connect`: a handshake, and then a session on what follows the reply. */
    static method Connect(busid: seq<byte>, devid: u32, attempts: seq<Handshake.Attempt>)
      returns (r: Result<TcpSession, Handshake.HandshakeError>, ghost made: nat)
      requires Handshake.MAX_RETRIES <= |attempts|
      ensures r.Failure? ==> Handshake.Retried(busid, attempts, made, Failure(r.error))
      ensures r.Success? ==>
                var session := r.value;
                && fresh(session) && fresh(session.stream)
                && session.busid == busid && session.devid == devid
                && Handshake.Retried(busid, attempts, made, Success(session.reply))
                && attempts[made - 1].Connected?
                && session.State() ==
                   SessionState(0, false, attempts[made - 1].inbound[OP_REP_IMPORT_SIZE..],
                                ImportCodec.OpReqBytes(Handshake.ImportRequest(busid)),
                                attempts[made - 1].capacity - OP_REQ_IMPORT_SIZE)
    {
      var imported;
      imported, made := Handshake.ImportDevice(busid, devid, attempts);
      if imported.Failure? {
        return Failure(imported.error), made;
      }
      var (stream, reply) := imported.value;
      var session := new TcpSession(stream, busid, devid, reply);
      return Success(session), made;
    }

    method SendHeader(header: TaggedHeader, payload: Option<seq<byte>>) returns (r: Outcome)
      modifies this, stream
      ensures (State(), r) == Step(old(State()), Send(header, payload))
    {
      if closed {
        return Failed(IoError);
      }
      var stamped := header.(base := header.base.(seqnum := nextSeqnum));
      nextSeqnum := (nextSeqnum + 1) % SEQNUMS;
      var buf := EncodeHeader(stamped, payload);
      if buf.Failure? {
        return Failed(buf.error);
      }
      var ok := stream.WriteAll(buf.value);
      assert buf.value == buf.value[..|buf.value|];
      return if ok then Sent else Failed(IoError);
    }

    method RecvHeaderInner() returns (result: Result<Frame, ProtocolError>)
      modifies stream`inbound
      ensures Received(result, stream.inbound) == Receive(old(stream.inbound))
    {
      ghost var inbound := stream.inbound;
      var ok, buf := stream.ReadExact(BASIC_HEADER_SIZE + CMD_HEADER_SIZE);
      if !ok {
        return Failure(IoError);
      }
      var command := U32Of(buf[0..4]);
      var direction := U32Of(buf[DIRECTION_OFFSET..DIRECTION_OFFSET + 4]);
      var numPackets := I32Of(buf[NUM_PACKETS_OFFSET..NUM_PACKETS_OFFSET + 4]);
      if numPackets != 0 {
        return Failure(IsochronousNotSupported);
      }
      var payloadLen: nat := 0;
      if command == CMD_SUBMIT {
        var tfl := I32Of(buf[TFL_OFFSET..TFL_OFFSET + 4]);
        if tfl > 0 && direction == USBIP_DIR_OUT {
          payloadLen := tfl;
        }
      } else if command == RET_SUBMIT {
        var al := I32Of(buf[TFL_OFFSET..TFL_OFFSET + 4]);
        if al > 0 {
          payloadLen := al;
        }
      }
      assert payloadLen == ClientPayload(buf);
      if payloadLen > MAX_PAYLOAD_SIZE {
        return Failure(BufferTooLarge(payloadLen, MAX_PAYLOAD_SIZE));
      }
      if payloadLen > 0 {
        var more, payload := stream.ReadExact(payloadLen);
        if !more {
          return Failure(IoError);
        }
        buf := buf + payload;
      }
      assert buf == inbound[..PAYLOAD_OFFSET + payloadLen];
      result := DecodeHeader(buf);
    }

    method RecvHeader() returns (r: Outcome)
      modifies stream
      ensures (State(), r) == Step(old(State()), Recv)
    {
      if closed {
        return Failed(IoError);
      }
      var result := RecvHeaderInner();
      return if result.Success? then Got(result.value) else Failed(result.error);
    }

    method RecvHeaderOrClose() returns (r: Outcome)
      modifies this, stream
      ensures (State(), r) == Step(old(State()), RecvOrClose)
    {
      var result := RecvHeaderInner();
      if result.Success? {
        return Got(result.value);
      }
      closed := true;
      stream.Shutdown();
      return Failed(result.error);
    }
  }

  // ---------------------------------------------------------------- runs

  /** The state after running `ops` from `s`. */
  function After(s: SessionState, ops: seq<Op>): SessionState {
    if ops == [] then s else Step(After(s, ops[..|ops| - 1]), ops[|ops| - 1]).0
  }

  /** What the `i`-th operation of a run returns. */
  function OutcomeAt(s: SessionState, ops: seq<Op>, i: nat): Outcome
    requires i < |ops|
  {
    Step(After(s, ops[..i]), ops[i]).1
  }

  /** How many sends were attempted while the session was open. */
  function OpenSends(s: SessionState, ops: seq<Op>): nat {
    if ops == [] then 0
    else
      var front := ops[..|ops| - 1];
      OpenSends(s, front) + if ops[|ops| - 1].Send? && !After(s, front).closed then 1 else 0
  }

  lemma AfterOne(s: SessionState, ops: seq<Op>, i: nat)
    requires i < |ops|
    ensures After(s, ops[..i + 1]) == Step(After(s, ops[..i]), ops[i]).0
    ensures OpenSends(s, ops[..i + 1]) ==
            OpenSends(s, ops[..i]) + if ops[i].Send? && !After(s, ops[..i]).closed then 1 else 0
  {
    assert ops[..i + 1][..i] == ops[..i];
  }

  lemma StepSeqnum(s: SessionState, op: Op)
    ensures Step(s, op).0.nextSeqnum ==
            if op.Send? && !s.closed then (s.nextSeqnum + 1) % SEQNUMS else s.nextSeqnum
  {
    hide HeaderBytes, Receive;
  }

  lemma ModSuccessor(n: nat)
    ensures (n % SEQNUMS + 1) % SEQNUMS == (n + 1) % SEQNUMS
  {
  }

  lemma ModDistinct(m: nat, n: nat)
    requires m < n < m + SEQNUMS
    ensures m % SEQNUMS != n % SEQNUMS
  {
  }

  /** `next_seqnum` is the number of attempts made while open, modulo 2^32. */
  lemma {:induction false} SeqnumCountsAttempts(s: SessionState, ops: seq<Op>)
    requires s.nextSeqnum == 0
    ensures After(s, ops).nextSeqnum == OpenSends(s, ops) % SEQNUMS
  {
    hide Step;
    if ops != [] {
      var front := ops[..|ops| - 1];
      SeqnumCountsAttempts(s, front);
      StepSeqnum(After(s, front), ops[|ops| - 1]);
      ModSuccessor(OpenSends(s, front));
    }
  }

  /** The sequence number of an encoded header sits at offset 4. */
  lemma SeqnumOnWire(h: TaggedHeader, payload: Option<seq<byte>>)
    requires HeaderBytes(h, payload).Success?
    ensures var b := HeaderBytes(h, payload).value;
            PAYLOAD_OFFSET <= |b| && U32At(b, 4) == h.base.seqnum
  {
    var b := HeaderBytes(h, payload).value;
    var tail := if |b| == PAYLOAD_OFFSET then [] else payload.value;
    assert b == FixedBytes(h) + tail;
    FixedRoundTrip(h, tail);
    assert BasicOf(b).seqnum == U32At(b, 4);
  }

  /**
   The n-th attempt made while open uses sequence number n mod 2^32. It writes one frame carrying
   that number, as far as it fits, or, when encoding fails, nothing; either way the number is used
   up. On a closed session a send changes nothing.
   */
  lemma AttemptEffect(s: SessionState, ops: seq<Op>, i: nat)
    requires s.nextSeqnum == 0 && i < |ops| && ops[i].Send?
    ensures var before, after := After(s, ops[..i]), After(s, ops[..i + 1]);
            var n := OpenSends(s, ops[..i]);
            if before.closed then
              after == before && OutcomeAt(s, ops, i) == Failed(IoError) && OpenSends(s, ops[..i + 1]) == n
            else
              var h := ops[i].header;
              var stamped := UsbipHeader(UsbipHeaderBasic(h.base.command, n % 0x1_0000_0000, h.base.devid,
                                                          h.base.direction, h.base.ep), h.u);
              var encoded := HeaderBytes(stamped, ops[i].payload);
              && OpenSends(s, ops[..i + 1]) == n + 1
              && after.nextSeqnum == (n + 1) % 0x1_0000_0000
              && after.inbound == before.inbound && !after.closed
              && after.capacity + |after.outbound| == before.capacity + |before.outbound|
              && (encoded.Failure? ==>
                    OutcomeAt(s, ops, i) == Failed(encoded.error) && after.outbound == before.outbound)
              && (encoded.Success? ==>
                    && U32At(encoded.value, 4) == n % 0x1_0000_0000
                    && (if |encoded.value| <= before.capacity then
                          OutcomeAt(s, ops, i) == Sent && after.outbound == before.outbound + encoded.value
                        else
                          && OutcomeAt(s, ops, i) == Failed(IoError)
                          && after.outbound == before.outbound + encoded.value[..before.capacity]))
  {
    hide HeaderBytes, Receive, U32At;
    AfterOne(s, ops, i);
    SeqnumCountsAttempts(s, ops[..i]);
    SeqnumCountsAttempts(s, ops[..i + 1]);
    var before, n := After(s, ops[..i]), OpenSends(s, ops[..i]);
    var encoded := HeaderBytes(Stamp(ops[i].header, n % SEQNUMS), ops[i].payload);
    if !before.closed && encoded.Success? {
      SeqnumOnWire(Stamp(ops[i].header, n % SEQNUMS), ops[i].payload);
      assert encoded.value[..|encoded.value|] == encoded.value;
    }
  }

  lemma {:induction false} OpenSendsGrow(s: SessionState, ops: seq<Op>, i: nat, j: nat)
    requires i <= j <= |ops|
    ensures OpenSends(s, ops[..i]) <= OpenSends(s, ops[..j])
    decreases j
  {
    hide Step, After, OpenSends;
    if i < j {
      OpenSendsGrow(s, ops, i, j - 1);
      AfterOne(s, ops, j - 1);
    }
  }

  /** Two attempts fewer than 2^32 apart never share a sequence number. */
  lemma SeqnumsDistinct(s: SessionState, ops: seq<Op>, i: nat, j: nat)
    requires s.nextSeqnum == 0 && i < j < |ops| && ops[i].Send? && ops[j].Send?
    requires !After(s, ops[..i]).closed
    requires OpenSends(s, ops[..j]) - OpenSends(s, ops[..i]) < SEQNUMS
    ensures After(s, ops[..i]).nextSeqnum != After(s, ops[..j]).nextSeqnum
  {
    hide Step, After, OpenSends;
    SeqnumCountsAttempts(s, ops[..i]);
    SeqnumCountsAttempts(s, ops[..j]);
    AfterOne(s, ops, i);
    OpenSendsGrow(s, ops, i + 1, j);
    ModDistinct(OpenSends(s, ops[..i]), OpenSends(s, ops[..j]));
  }

  /**
   The first failure of `recv_header_or_close` is final: from then on nothing is written, no
   sequence number is used and every send fails.
   */
  lemma {:induction false} ClosedIsFinal(s: SessionState, ops: seq<Op>, i: nat, j: nat)
    requires i < j <= |ops| && ops[i] == RecvOrClose && OutcomeAt(s, ops, i).Failed?
    ensures var before, after := After(s, ops[..i]), After(s, ops[..j]);
            && after.closed
            && after.outbound == before.outbound
            && after.nextSeqnum == before.nextSeqnum
            && (j < |ops| && (ops[j].Send? || ops[j].Recv?) ==> OutcomeAt(s, ops, j) == Failed(IoError))
    decreases j
  {
    hide HeaderBytes, Receive;
    AfterOne(s, ops, j - 1);
    if i < j - 1 {
      ClosedIsFinal(s, ops, i, j - 1);
    }
  }

  /**
   What a receive does, at any point of any run. It uses no number and writes nothing. On a closed
   session `Recv` does nothing at all; every other receive returns what the receiver makes of the
   inbound stream and leaves there what that leaves. Only a failing `RecvOrClose` closes the session
   and the write half; any other receive leaves both as they were.
   */
  lemma ReceiveEffect(s: SessionState, ops: seq<Op>, i: nat)
    requires i < |ops| && !ops[i].Send?
    ensures var before, after := After(s, ops[..i]), After(s, ops[..i + 1]);
            var r := OutcomeAt(s, ops, i);
            var received := Receive(before.inbound);
            && after.nextSeqnum == before.nextSeqnum && after.outbound == before.outbound
            && (if ops[i].Recv? && before.closed then
                  after == before && r == Failed(IoError)
                else
                  && after.inbound == received.rest
                  && (forall f :: r == Got(f) <==> received.result == Success(f))
                  && (forall e :: r == Failed(e) <==> received.result == Failure(e)))
            && (if ops[i].RecvOrClose? && r.Failed? then after.closed && after.capacity == 0
                else after.closed == before.closed && after.capacity == before.capacity)
  {
    hide Receive;
    AfterOne(s, ops, i);
  }

  /** No closing receive of the run fails. */
  predicate NeverCloses(s: SessionState, ops: seq<Op>) {
    forall i | 0 <= i < |ops| && ops[i].RecvOrClose? :: OutcomeAt(s, ops, i).Got?
  }

  lemma StepConserves(s: SessionState, op: Op)
    ensures var (t, r) := Step(s, op);
            && s.outbound <= t.outbound
            && |t.inbound| <= |s.inbound| && t.inbound == s.inbound[|s.inbound| - |t.inbound|..]
            && (!op.RecvOrClose? || r.Got? ==>
                  t.closed == s.closed && t.capacity + |t.outbound| == s.capacity + |s.outbound|)
  {
    hide HeaderBytes, ParseHeader, ClientPeek;
  }

  /**
   Over every run: what was written stays written, bytes are only ever taken from the front of the
   inbound stream, and unless a closing receive fails the session stays as open as it was and each
   byte of capacity turns into a byte written.
   */
  lemma {:induction false} RunConserves(s: SessionState, ops: seq<Op>)
    ensures var t := After(s, ops);
            && s.outbound <= t.outbound
            && |t.inbound| <= |s.inbound| && t.inbound == s.inbound[|s.inbound| - |t.inbound|..]
            && (NeverCloses(s, ops) ==>
                  t.closed == s.closed && t.capacity + |t.outbound| == s.capacity + |s.outbound|)
  {
    hide Step;
    if ops != [] {
      var n := |ops| - 1;
      RunConserves(s, ops[..n]);
      StepConserves(After(s, ops[..n]), ops[n]);
      assert NeverCloses(s, ops) ==> NeverCloses(s, ops[..n]) by {
        forall i | 0 <= i < n
          ensures OutcomeAt(s, ops[..n], i) == OutcomeAt(s, ops, i)
        {
          assert ops[..n][..i] == ops[..i];
        }
      }
      assert NeverCloses(s, ops) && ops[n].RecvOrClose? ==> OutcomeAt(s, ops, n).Got?;
    }
  }

  // ---------------------------------------------------------------- frames received by a run

  /** The frames that a run has returned, in order. */
  function Gots(s: SessionState, ops: seq<Op>): seq<Frame> {
    if ops == [] then []
    else
      var front := ops[..|ops| - 1];
      var r := Step(After(s, front), ops[|ops| - 1]).1;
      if r.Got? then Gots(s, front) + [r.frame] else Gots(s, front)
  }

  /** No receive has failed so far. */
  predicate Receiving(s: SessionState, ops: seq<Op>) {
    forall i | 0 <= i < |ops| :: ops[i].Send? || OutcomeAt(s, ops, i).Got?
  }

  /** The frames that a state will still receive. */
  function Pending(s: SessionState): (seq<Frame>, seq<byte>) {
    ReceiveAll(s.inbound)
  }

  /** One receive takes the first pending frame; it fails, and only then closes, if there is none. */
  lemma ReceiveTakesPending(s: SessionState, op: Op)
    requires !s.closed
    ensures var (t, r) := Step(s, op);
            var (fs, rest) := Pending(s);
            if op.Send? then !r.Got? && Pending(t) == Pending(s) && !t.closed
            else if fs == [] then r.Failed?
            else r == Got(fs[0]) && Pending(t) == (fs[1..], rest) && !t.closed
  {
    hide HeaderBytes, Receive;
  }

  lemma ReceivingFront(s: SessionState, ops: seq<Op>)
    requires ops != [] && Receiving(s, ops)
    ensures Receiving(s, ops[..|ops| - 1])
  {
    hide Step;
    var front := ops[..|ops| - 1];
    forall i | 0 <= i < |front|
      ensures front[i].Send? || OutcomeAt(s, front, i).Got?
    {
      assert front[..i] == ops[..i];
      assert ops[i].Send? || OutcomeAt(s, ops, i).Got?;
    }
  }

  /**
   Whatever is sent in between, the receives of a run return the frames of the inbound stream in
   order, and the first receive to fail is the one made when they are used up.
   */
  lemma {:induction false} ReceivesInOrder(s: SessionState, ops: seq<Op>)
    requires !s.closed && Receiving(s, ops)
    ensures var (fs, rest) := ReceiveAll(s.inbound);
            var got := Gots(s, ops);
            && !After(s, ops).closed
            && got <= fs
            && ReceiveAll(After(s, ops).inbound) == (fs[|got|..], rest)
            && (Step(After(s, ops), RecvOrClose).1.Failed? <==> got == fs)
  {
    hide ReceiveAll, Step;
    if ops != [] {
      var front, op := ops[..|ops| - 1], ops[|ops| - 1];
      ReceivingFront(s, ops);
      ReceivesInOrder(s, front);
      assert op.Send? || OutcomeAt(s, ops, |ops| - 1).Got?;
      ReceiveTakesPending(After(s, front), op);
      var fs, k := ReceiveAll(s.inbound).0, |Gots(s, front)|;
      if !op.Send? {
        assert fs[k..][1..] == fs[k + 1..];
      }
    }
    ReceiveTakesPending(After(s, ops), RecvOrClose);
  }
}
