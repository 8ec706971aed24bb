/**
 The opening of a connection: the client's `import_device` and the server's `accept_device`.

 An `Attempt` stands for what the network does to one attempt: it times out, refuses the
 connection, or connects and then delivers and accepts some number of bytes.
 */
module Handshake {
  import opened Bytes
  import opened ImportCodec
  import opened Transport
  import opened Types
  import opened Utf8
  import opened Wire
  import opened Wrappers

  const MAX_RETRIES := 3

  datatype HandshakeError =
    | Timeout
    | ConnectionFailed
    | ServerRejected(status: u32)
    | MaxRetriesExceeded(attempts: nat)
    | InvalidReply

  datatype AcceptError = AcceptFailed | InvalidRequest

  datatype Attempt = TimedOut | Refused | Connected(inbound: seq<byte>, capacity: nat)

  /** "/sys/devices/pci0000:00" */
  const PATH_PREFIX: seq<byte> :=
    [47, 115, 121, 115, 47, 100, 101, 118, 105, 99, 101, 115, 47, 112, 99, 105, 48, 48, 48, 48, 58, 48, 48]

  // ---------------------------------------------------------------- client

  /** A name in its 32-byte field: cut to 32 bytes, or filled up with NULs. */
  function PadBusid(name: Str): BusidField {
    if |name| > 32 then name[..32] else name + Zeros(32 - |name|)
  }

  function ImportRequest(name: Str): OpReqImport {
    OpReqImport(USBIP_VERSION, PATH_PREFIX + Zeros(233), PadBusid(name))
  }

  method MakeImportRequest(busid: Str, devid: u32) returns (req: OpReqImport)
    ensures req == ImportRequest(busid)
  {
    var busidArr := new byte[32](_ => 0);
    var len := if |busid| < 32 then |busid| else 32;
    forall i | 0 <= i < len {
      busidArr[i] := busid[i];
    }
    var path := new byte[256](_ => 0);
    forall i | 0 <= i < 23 {
      path[i] := PATH_PREFIX[i];
    }
    assert path[..] == PATH_PREFIX + Zeros(233);
    assert busidArr[..] == PadBusid(busid);
    req := OpReqImport(USBIP_VERSION, path[..], busidArr[..]);
  }

  /** The fields of a request, byte by byte: version 1.1.1, a fixed path, and the name's first 32 bytes. */
  lemma RequestFields(name: Str)
    ensures var req := ImportRequest(name);
            && req.status == 0x0111
            && (forall i | 0 <= i < 256 ::
                  req.path[i] == if i < 23 then "/sys/devices/pci0000:00"[i] as int else 0)
            && (forall i | 0 <= i < 32 :: req.busid[i] == if i < |name| then name[i] else 0)
  {
  }

  /** How one attempt ends. */
  function Exchange(a: Attempt, req: OpReqImport): Result<OpRepImport, HandshakeError> {
    match a
    case TimedOut => Failure(Timeout)
    case Refused => Failure(ConnectionFailed)
    case Connected(inbound, capacity) =>
      if capacity < OP_REQ_IMPORT_SIZE || |inbound| < OP_REP_IMPORT_SIZE then Failure(ConnectionFailed)
      else
        var reply := OpRepOf(inbound[..OP_REP_IMPORT_SIZE]);
        if reply.status != 0 then Failure(ServerRejected(reply.status))
        else if reply.busnum == 0 || reply.devnum == 0 then Failure(InvalidReply)
        else Success(reply)
  }

  method DoHandshake(a: Attempt, req: OpReqImport) returns (r: Result<(ByteStream, OpRepImport), HandshakeError>)
    requires !a.TimedOut?
    ensures r.Failure? ==> Exchange(a, req) == Failure(r.error)
    ensures r.Success? ==>
              var (stream, reply) := r.value;
              && fresh(stream)
              && Exchange(a, req) == Success(reply)
              && stream.outbound == OpReqBytes(req)
              && stream.inbound == a.inbound[OP_REP_IMPORT_SIZE..]
              && stream.capacity == a.capacity - OP_REQ_IMPORT_SIZE
  {
    if a.Refused? {
      return Failure(ConnectionFailed);
    }
    var stream := new ByteStream(a.inbound, a.capacity);
    var reqBytes := EncodeOpReqImport(req);
    var written := stream.WriteAll(reqBytes);
    if !written {
      return Failure(ConnectionFailed);
    }
    var read, repBuf := stream.ReadExact(OP_REP_IMPORT_SIZE);
    if !read {
      return Failure(ConnectionFailed);
    }
    var decoded := DecodeOpRepImport(repBuf);
    assert decoded.Success?;
    var reply := decoded.value;
    if reply.status != 0 {
      return Failure(ServerRejected(reply.status));
    }
    if reply.busnum == 0 || reply.devnum == 0 {
      return Failure(InvalidReply);
    }
    return Success((stream, reply));
  }

  /** Outcomes that end the retrying. */
  predicate Decisive(r: Result<OpRepImport, HandshakeError>) {
    r.Success? || r.error.ServerRejected? || r.error.InvalidReply?
  }

  /**
   What trying again comes to: the outcome of the first decisive attempt, after `made` attempts,
   or that all three came to nothing.
   */
  ghost predicate Retried(busid: Str, attempts: seq<Attempt>, made: nat, r: Result<OpRepImport, HandshakeError>)
    requires MAX_RETRIES <= |attempts|
  {
    var req := ImportRequest(busid);
    if busid == [] then
      made == 0 && r == Failure(InvalidReply)
    else if r == Failure(MaxRetriesExceeded(MAX_RETRIES)) then
      made == MAX_RETRIES && forall i | 0 <= i < MAX_RETRIES :: !Decisive(Exchange(attempts[i], req))
    else
      && 0 < made <= MAX_RETRIES
      && (forall i | 0 <= i < made - 1 :: !Decisive(Exchange(attempts[i], req)))
      && Decisive(r) && Exchange(attempts[made - 1], req) == r
  }

  /** There is one such outcome. */
  lemma RetriedIsDetermined(busid: Str, attempts: seq<Attempt>,
                            m: nat, r: Result<OpRepImport, HandshakeError>,
                            n: nat, q: Result<OpRepImport, HandshakeError>)
    requires MAX_RETRIES <= |attempts|
    requires Retried(busid, attempts, m, r) && Retried(busid, attempts, n, q)
    ensures m == n && r == q
  {
    hide Exchange;
  }

  /** The reply of an import, without the connection. */
  function ReplyOf(r: Result<(ByteStream, OpRepImport), HandshakeError>): Result<OpRepImport, HandshakeError> {
    if r.Success? then Success(r.value.1) else Failure(r.error)
  }

  /** At most three attempts are made; `made` counts them. */
  method ImportDevice(busid: Str, devid: u32, attempts: seq<Attempt>)
    returns (r: Result<(ByteStream, OpRepImport), HandshakeError>, ghost made: nat)
    requires MAX_RETRIES <= |attempts|
    ensures Retried(busid, attempts, made, ReplyOf(r))
    ensures r.Success? ==>
              && attempts[made - 1].Connected?
              && fresh(r.value.0)
              && r.value.0.outbound == OpReqBytes(ImportRequest(busid))
              && r.value.0.inbound == attempts[made - 1].inbound[OP_REP_IMPORT_SIZE..]
              && r.value.0.capacity == attempts[made - 1].capacity - OP_REQ_IMPORT_SIZE
  {
    made := 0;
    if busid == [] {
      return Failure(InvalidReply), made;
    }
    var req := MakeImportRequest(busid, devid);
    for attempt := 0 to MAX_RETRIES
      invariant made == attempt
      invariant forall i | 0 <= i < attempt :: !Decisive(Exchange(attempts[i], req))
    {
      made := made + 1;
      if !attempts[attempt].TimedOut? {
        var result := DoHandshake(attempts[attempt], req);
        if result.Success? || result.error.ServerRejected? || result.error.InvalidReply? {
          return result, made;
        }
      }
    }
    return Failure(MaxRetriesExceeded(MAX_RETRIES)), made;
  }

  /**
   An attempt succeeds exactly when the request could be written and the peer answered with the
   encoding of a reply of status 0 with a bus and a device number.
   */
  lemma SuccessfulExchange(a: Attempt, req: OpReqImport, rep: OpRepImport)
    ensures Exchange(a, req) == Success(rep) <==>
            && a.Connected?
            && OP_REQ_IMPORT_SIZE <= a.capacity
            && OpRepBytes(rep) <= a.inbound
            && rep.status == 0 && rep.busnum != 0 && rep.devnum != 0
  {
    if a.Connected? && OP_REP_IMPORT_SIZE <= |a.inbound| {
      var b := a.inbound[..OP_REP_IMPORT_SIZE];
      OpRepRewrite(b);
      assert b[..OP_REP_IMPORT_SIZE] == b;
      if OpRepBytes(rep) <= a.inbound {
        assert b == OpRepBytes(rep) + [];
        OpRepRoundTrip(rep, []);
      }
    }
  }

  /** The device record made from the reply of a successful attempt, by the bytes that the peer sent. */
  lemma ImportedDevice(a: Attempt, req: OpReqImport, rep: OpRepImport)
    requires Exchange(a, req) == Success(rep)
    ensures var b, d := a.inbound, DeviceOf(rep);
            && 316 <= |b|
            && d.busid == TrimNul(Lossy(b[260..292]))
            && d.busnum == U32At(b, 292) && d.devnum == U32At(b, 296)
            && d.vid == U16Of(b[304..306]) && d.pid == U16Of(b[306..308])
            && d.bDeviceClass == b[310] && d.bDeviceSubClass == b[311] && d.bDeviceProtocol == b[312]
            && d.manufacturer == d.product == None
            && (d.speed == LowSpeed <==> U32At(b, 300) == 1)
            && (d.speed == FullSpeed <==> U32At(b, 300) == 2)
            && (d.speed == SuperSpeed <==> U32At(b, 300) == 4)
  {
    hide U32Of, U16Of;
    var b, reply := a.inbound, a.inbound[..316];
    assert reply[260..292] == b[260..292];
    assert reply[292..296] == b[292..296] && reply[296..300] == b[296..300] && reply[300..304] == b[300..304];
    assert reply[304..306] == b[304..306] && reply[306..308] == b[306..308];
  }

  /** The attempt gets no complete reply: it times out, is refused, or breaks off on writing or reading. */
  predicate Fruitless(a: Attempt) {
    || a.TimedOut?
    || a.Refused?
    || a.capacity < 292
    || |a.inbound| < 316
  }

  /** Any other attempt is answered by the encoding of exactly one reply. */
  lemma AnsweredBy(a: Attempt, rep: OpRepImport)
    requires !Fruitless(a)
    ensures OpRepBytes(rep) <= a.inbound <==> rep == OpRepOf(a.inbound[..316])
  {
    hide OpRepBytes, OpRepOf;
    var b := a.inbound[..316];
    OpRepRewrite(b);
    assert b[..316] == b;
    if OpRepBytes(rep) <= a.inbound {
      assert b == OpRepBytes(rep) + [];
      OpRepRoundTrip(rep, []);
    }
  }

  /** Which failure an attempt ends in, exactly, in terms of what the network and the peer did. */
  lemma FailedExchange(a: Attempt, req: OpReqImport, e: HandshakeError)
    ensures Exchange(a, req) == Failure(e) <==>
            match e
            case Timeout => a.TimedOut?
            case ConnectionFailed => a.Refused? || (a.Connected? && Fruitless(a))
            case ServerRejected(status) =>
              status != 0 && !Fruitless(a) && exists rep :: OpRepBytes(rep) <= a.inbound && rep.status == status
            case InvalidReply =>
              !Fruitless(a) && exists rep :: OpRepBytes(rep) <= a.inbound && rep.status == 0
                                             && (rep.busnum == 0 || rep.devnum == 0)
            case MaxRetriesExceeded(_) => false
  {
    hide OpRepBytes, OpRepOf;
    if !Fruitless(a) {
      forall rep
        ensures OpRepBytes(rep) <= a.inbound <==> rep == OpRepOf(a.inbound[..316])
      {
        AnsweredBy(a, rep);
      }
      assert OpRepBytes(OpRepOf(a.inbound[..316])) <= a.inbound;
    }
  }

  /**
   What retrying comes to, by the attempts alone: an empty name is turned down at once; three
   fruitless attempts are too many; otherwise the first attempt that is not fruitless decides.
   */
  lemma RetriedExactly(busid: Str, attempts: seq<Attempt>, made: nat, r: Result<OpRepImport, HandshakeError>)
    requires 3 <= |attempts|
    ensures Retried(busid, attempts, made, r) <==>
            if busid == [] then
              made == 0 && r == Failure(InvalidReply)
            else if forall i | 0 <= i < 3 :: Fruitless(attempts[i]) then
              made == 3 && r == Failure(MaxRetriesExceeded(3))
            else
              && 1 <= made <= 3
              && (forall i | 0 <= i < made - 1 :: Fruitless(attempts[i])) && !Fruitless(attempts[made - 1])
              && r == Exchange(attempts[made - 1], ImportRequest(busid))
  {
    hide OpRepOf, ImportRequest;
  }

  // ---------------------------------------------------------------- server

  predicate AllZero(s: seq<byte>) {
    forall i | 0 <= i < |s| :: s[i] == 0
  }

  function Accepted(inbound: seq<byte>): Result<OpReqImport, AcceptError> {
    if |inbound| < OP_REQ_IMPORT_SIZE then Failure(AcceptFailed)
    else
      var req := OpReqOf(inbound[..OP_REQ_IMPORT_SIZE]);
      if AllZero(req.busid) || !IsUtf8(req.busid) then Failure(InvalidRequest) else Success(req)
  }

  /** `accept_device` on an accepted connection. */
  method AcceptDevice(stream: ByteStream) returns (r: Result<OpReqImport, AcceptError>)
    modifies stream`inbound
    ensures r == Accepted(old(stream.inbound))
    ensures stream.inbound ==
            if r == Failure(AcceptFailed) then [] else old(stream.inbound)[OP_REQ_IMPORT_SIZE..]
  {
    var ok, buf := stream.ReadExact(OP_REQ_IMPORT_SIZE);
    if !ok {
      return Failure(AcceptFailed);
    }
    var decoded := DecodeOpReqImport(buf);
    assert decoded.Success?;
    var req := decoded.value;
    if forall i | 0 <= i < |req.busid| :: req.busid[i] == 0 {
      return Failure(InvalidRequest);
    }
    if !IsUtf8(req.busid) {
      return Failure(InvalidRequest);
    }
    return Success(req);
  }

  /**
   The server accepts a request exactly when the stream starts with its encoding and its name is
   UTF-8 and not all NUL. It gives up only on a stream of less than 292 bytes.
   */
  lemma AcceptedExactly(inbound: seq<byte>, req: OpReqImport)
    ensures Accepted(inbound) == Success(req) <==>
            OpReqBytes(req) <= inbound && IsUtf8(req.busid) && exists i :: 0 <= i < 32 && req.busid[i] != 0
    ensures Accepted(inbound) == Failure(AcceptFailed) <==> |inbound| < 292
  {
    hide OpReqBytes, OpReqOf, IsUtf8;
    if 292 <= |inbound| {
      var b := inbound[..292];
      OpReqRewrite(b);
      assert b[..292] == b;
      if OpReqBytes(req) <= inbound {
        assert b == OpReqBytes(req) + [];
        OpReqRoundTrip(req, []);
      }
    }
  }

  // ---------------------------------------------------------------- bus identifiers end to end

  /** The part of a name that fits the field. */
  function Cut(name: Str): Str {
    if |name| > 32 then name[..32] else name
  }

  lemma {:induction false} Utf8BeforeZeros(s: seq<byte>, n: nat)
    requires IsUtf8(s + Zeros(n))
    ensures IsUtf8(s)
    decreases |s|
  {
    if s != [] {
      var b, len := s + Zeros(n), CharLength(s[0]);
      assert len <= |s| by {
        // A character's later bytes are never zero.
        assert forall i | |s| <= i < |b| :: b[i] == 0;
      }
      assert b[len..] == s[len..] + Zeros(n);
      Utf8BeforeZeros(s[len..], n);
      assert StartsWithChar(s);
    }
  }

  lemma PaddedUtf8(name: Str)
    ensures IsUtf8(PadBusid(name)) <==> IsUtf8(Cut(name))
  {
    var n := 32 - |Cut(name)|;
    assert PadBusid(name) == Cut(name) + Zeros(n);
    ZerosAreUtf8(n);
    if IsUtf8(Cut(name)) {
      Utf8Append(Cut(name), Zeros(n));
    }
    if IsUtf8(Cut(name) + Zeros(n)) {
      Utf8BeforeZeros(Cut(name), n);
    }
  }

  lemma PaddedZero(name: Str)
    ensures AllZero(PadBusid(name)) <==> AllZero(Cut(name))
  {
    assert forall i | 0 <= i < |Cut(name)| :: PadBusid(name)[i] == Cut(name)[i];
  }

  /**
   The server accepts the client's request for a name exactly when the first 32 bytes of the name
   are UTF-8 and not all NUL, and then sees the field that the client filled in.
   */
  lemma RequestAccepted(name: Str, rest: seq<byte>)
    ensures Accepted(OpReqBytes(ImportRequest(name)) + rest) ==
            if IsUtf8(Cut(name)) && !AllZero(Cut(name)) then Success(ImportRequest(name)) else Failure(InvalidRequest)
  {
    var req := ImportRequest(name);
    var inbound := OpReqBytes(req) + rest;
    assert inbound[..OP_REQ_IMPORT_SIZE] == OpReqBytes(req) + [];
    OpReqRoundTrip(req, []);
    PaddedUtf8(name);
    PaddedZero(name);
  }

  /** Trimming undoes padding exactly for names of at most 32 bytes that do not end in NUL. */
  lemma TrimUndoesPad(name: Str)
    ensures TrimNul(PadBusid(name)) == name <==> |name| <= 32 && !EndsInNul(name)
  {
    TrimSplits(PadBusid(name));
    if |name| <= 32 {
      TrimOfPadded(name, 32 - |name|);
      TrimSplits(name);
    }
  }

  /**
   A valid UTF-8 name that fits and does not end in NUL arrives unchanged: at the server after its
   checks, and, when a reply carries it back, as the registry key.
   */
  lemma {:induction false} BusidSurvives(name: Str, rest: seq<byte>)
    requires name != [] && IsUtf8(name) && |name| <= 32 && !EndsInNul(name)
    ensures Accepted(OpReqBytes(ImportRequest(name)) + rest) == Success(ImportRequest(name))
    ensures TrimNul(ImportRequest(name).busid) == name
    ensures BusidOf(PadBusid(name)) == name
  {
    RequestAccepted(name, rest);
    TrimUndoesPad(name);
    PaddedUtf8(name);
    LossyKeepsUtf8(PadBusid(name));
  }
}
