/**
 A client session and an echo server joined by two byte channels.

 The client writes requests and reads replies; the server runs `serve_urb_echo` over and over.
 A channel hands over its bytes in pieces of any size, so a reader is usually in the middle of a
 frame. The laws quantify over every sequence of events, that is over every interleaving and
 every segmentation.
 */
module EchoProtocol {
  import opened Bytes
  import opened Codec
  import opened CodecLaws
  import opened Framing
  import opened Receiver
  import opened Server
  import opened Session
  import opened Wire
  import opened Wrappers

  /** `sent`, `served` and `received` record what was written and returned so far. */
  datatype Net = Net(
    nextSeqnum: u32,
    toServer: seq<byte>,
    toClient: seq<byte>,
    serverBuf: seq<byte>,
    clientBuf: seq<byte>,
    serverError: Option<ProtocolError>,
    clientError: Option<ProtocolError>,
    sent: seq<Frame>,
    served: seq<UsbipHeader>,
    received: seq<Frame>)

  const START := Net(0, [], [], [], [], None, None, [], [], [])

  datatype Event =
    | ClientSend(header: TaggedHeader, payload: Option<seq<byte>>)
    | ServerRead(k: nat)
    | ClientRead(k: nat)

  // ---------------------------------------------------------------- steps

  /** The request a send would put on the wire. */
  function Stamped(n: Net, header: TaggedHeader, payload: Option<seq<byte>>): Frame {
    Frame(Stamp(header, n.nextSeqnum), payload)
  }

  /** How many bytes the server's current `read_exact` calls want in all. */
  function ServerNeed(buf: seq<byte>): nat {
    if |buf| < PAYLOAD_OFFSET then PAYLOAD_OFFSET
    else var peek := ServerPeek(buf[..PAYLOAD_OFFSET]); if peek.Success? then PAYLOAD_OFFSET + peek.value else 0
  }

  function ClientNeed(buf: seq<byte>): nat {
    if |buf| < PAYLOAD_OFFSET then PAYLOAD_OFFSET
    else var peek := ClientPeek(buf[..PAYLOAD_OFFSET]); if peek.Success? then PAYLOAD_OFFSET + peek.value else 0
  }

  /**
   The application sends requests: what it hands over either fails to encode or is a submit or an
   unlink whose payload fits its header. A read takes between one byte and all that is wanted.
   */
  predicate Enabled(n: Net, e: Event) {
    match e
    case ClientSend(h, p) =>
      && n.clientError.None?
      && (HeaderBytes(Stamped(n, h, p).header, p).Success? ==> IsRequest(Stamped(n, h, p)))
    case ServerRead(k) =>
      n.serverError.None? && 0 < k <= |n.toServer| && |n.serverBuf| + k <= ServerNeed(n.serverBuf)
    case ClientRead(k) =>
      n.clientError.None? && 0 < k <= |n.toClient| && |n.clientBuf| + k <= ClientNeed(n.clientBuf)
  }

  function SendNext(n: Net, h: TaggedHeader, p: Option<seq<byte>>): Net {
    var f := Stamped(n, h, p);
    var encoded := HeaderBytes(f.header, p);
    var m := n.(nextSeqnum := (n.nextSeqnum + 1) % SEQNUMS);
    if encoded.Failure? then m else m.(toServer := n.toServer + encoded.value, sent := n.sent + [f])
  }

  /** A server read: peek once 48 bytes are there, answer once the whole request is. */
  function ServerNext(n: Net, k: nat): Net
    requires k <= |n.toServer|
  {
    var buf, rest := n.serverBuf + n.toServer[..k], n.toServer[k..];
    var m := n.(toServer := rest, serverBuf := buf);
    if |buf| < PAYLOAD_OFFSET then m
    else
      var peek := ServerPeek(buf[..PAYLOAD_OFFSET]);
      if peek.Failure? then m.(serverError := Some(peek.error))
      else if |buf| < PAYLOAD_OFFSET + peek.value then m
      else
        var s := Answer(buf, rest);
        if s.result.Failure? then m.(serverError := Some(s.result.error))
        else m.(serverBuf := [], toClient := n.toClient + s.output, served := n.served + [s.result.value])
  }

  function ClientNext(n: Net, k: nat): Net
    requires k <= |n.toClient|
  {
    var buf, rest := n.clientBuf + n.toClient[..k], n.toClient[k..];
    var m := n.(toClient := rest, clientBuf := buf);
    if |buf| < PAYLOAD_OFFSET then m
    else
      var peek := ClientPeek(buf[..PAYLOAD_OFFSET]);
      if peek.Failure? then m.(clientError := Some(peek.error))
      else if |buf| < PAYLOAD_OFFSET + peek.value then m
      else
        var f := ParseHeader(buf);
        if f.Failure? then m.(clientError := Some(f.error))
        else m.(clientBuf := [], received := n.received + [f.value])
  }

  function Next(n: Net, e: Event): Net
    requires Enabled(n, e)
  {
    match e
    case ClientSend(h, p) => SendNext(n, h, p)
    case ServerRead(k) => ServerNext(n, k)
    case ClientRead(k) => ClientNext(n, k)
  }

  predicate Legal(es: seq<Event>)
    decreases |es|, 0
  {
    es == [] || (Legal(es[..|es| - 1]) && Enabled(Exec(es[..|es| - 1]), es[|es| - 1]))
  }

  function Exec(es: seq<Event>): Net
    requires Legal(es)
    decreases |es|, 1
  {
    if es == [] then START else Next(Exec(es[..|es| - 1]), es[|es| - 1])
  }

  // ---------------------------------------------------------------- invariant

  function ReplyTo(f: Frame): Frame {
    if IsRequest(f) then ReplyAnswers(f); Reply(f).value else f
  }

  function Replies(fs: seq<Frame>): (rs: seq<Frame>)
    ensures |rs| == |fs|
    ensures forall i | 0 <= i < |fs| :: rs[i] == ReplyTo(fs[i])
  {
    seq(|fs|, i requires 0 <= i < |fs| => ReplyTo(fs[i]))
  }

  predicate AllRequests(fs: seq<Frame>) {
    forall i | 0 <= i < |fs| :: IsRequest(fs[i])
  }

  /** `buf` and then `channel` hold exactly these frames, and `buf` none of them completely. */
  predicate Holds(buf: seq<byte>, channel: seq<byte>, fs: seq<Frame>) {
    && buf + channel == Concat(fs)
    && (fs != [] ==> |buf| < |FrameBytes(fs[0])|)
  }

  predicate Inv(n: Net) {
    && n.serverError.None? && n.clientError.None?
    && AllRequests(n.sent)
    && |n.received| <= |n.served| <= |n.sent|
    && Holds(n.serverBuf, n.toServer, n.sent[|n.served|..])
    && Holds(n.clientBuf, n.toClient, Replies(n.sent)[|n.received|..|n.served|])
    && n.received == Replies(n.sent)[..|n.received|]
    && (forall i | 0 <= i < |n.served| :: n.served[i] == n.sent[i].header)
  }

  /** A frame written to a channel joins what it holds. */
  lemma HoldsAppend(buf: seq<byte>, channel: seq<byte>, fs: seq<Frame>, f: Frame)
    requires Holds(buf, channel, fs)
    ensures Holds(buf, channel + FrameBytes(f), fs + [f])
  {
    hide FrameBytes;
    ConcatAppend(fs, [f]);
    assert Concat([f]) == FrameBytes(f) + [] == FrameBytes(f);
    assert buf + (channel + FrameBytes(f)) == (buf + channel) + FrameBytes(f);
    if fs == [] {
      assert buf == [];
    }
  }

  lemma HoldsFresh(channel: seq<byte>, fs: seq<Frame>)
    requires channel == Concat(fs)
    ensures Holds([], channel, fs)
  {
    hide Concat;
    assert [] + channel == channel;
  }

  /** Reading no further than the first frame: the buffer stays a prefix of it. */
  lemma ReadWithin(buf: seq<byte>, channel: seq<byte>, fs: seq<Frame>, k: nat)
    requires fs != [] && buf + channel == Concat(fs)
    requires k <= |channel| && |buf| + k <= |FrameBytes(fs[0])|
    ensures var b, rest := buf + channel[..k], channel[k..];
            && b + rest == Concat(fs)
            && b == FrameBytes(fs[0])[..|b|]
            && (|b| == |FrameBytes(fs[0])| ==> b == FrameBytes(fs[0]) && rest == Concat(fs[1..]))
  {
    hide FrameBytes;
    var b, rest := buf + channel[..k], channel[k..];
    assert b + rest == buf + channel;
    var e, tail := FrameBytes(fs[0]), Concat(fs[1..]);
    assert b + rest == e + tail;
    assert b == (b + rest)[..|b|] == e[..|b|];
    assert rest == (b + rest)[|b|..];
  }

  lemma NonEmptyConcat(fs: seq<Frame>)
    ensures fs != [] <==> Concat(fs) != []
  {
  }

  /** A request that is written joins what the server has to read. */
  lemma SentKeepsInv(n: Net, f: Frame)
    requires Inv(n) && IsRequest(f)
    ensures Inv(n.(toServer := n.toServer + FrameBytes(f), sent := n.sent + [f]))
  {
    hide FrameBytes, ReplyTo, Holds, IsRequest, Replies, Concat;
    HoldsAppend(n.serverBuf, n.toServer, n.sent[|n.served|..], f);
    var sent := n.sent + [f];
    assert sent[|n.served|..] == n.sent[|n.served|..] + [f];
    assert Replies(sent)[|n.received|..|n.served|] == Replies(n.sent)[|n.received|..|n.served|];
    assert Replies(sent)[..|n.received|] == Replies(n.sent)[..|n.received|];
  }

  lemma RequestBytes(f: Frame)
    requires IsRequest(f)
    ensures f.header.TagAgrees() && HeaderBytes(f.header, f.payload) == Success(FrameBytes(f))
  {
    WellFormedEncodes(f);
  }

  lemma SendKeepsInv(n: Net, h: TaggedHeader, p: Option<seq<byte>>)
    requires Inv(n) && Enabled(n, ClientSend(h, p))
    ensures Inv(SendNext(n, h, p))
  {
    hide HeaderBytes, IsRequest, FrameBytes, Holds, Replies;
    var f := Stamped(n, h, p);
    if HeaderBytes(f.header, p).Success? {
      RequestBytes(f);
      SentKeepsInv(n, f);
    }
  }

  /** On a prefix of an encoded request the server's peek is the request's length. */
  lemma ServerNeedOfRequest(f: Frame, buf: seq<byte>)
    requires IsRequest(f) && |buf| <= |FrameBytes(f)| && buf == FrameBytes(f)[..|buf|]
    ensures PAYLOAD_OFFSET <= |buf| ==>
              ServerPeek(buf[..PAYLOAD_OFFSET]) == Success(|FrameBytes(f)| - PAYLOAD_OFFSET)
    ensures ServerNeed(buf) <= |FrameBytes(f)|
  {
    hide ServerPeek, FrameBytes;
    PeekOfEncoded(f);
    if PAYLOAD_OFFSET <= |buf| {
      assert buf[..PAYLOAD_OFFSET] == FrameBytes(f)[..PAYLOAD_OFFSET];
    }
  }

  lemma ClientNeedOfReply(f: Frame, buf: seq<byte>)
    requires Receivable(f) && |buf| <= |FrameBytes(f)| && buf == FrameBytes(f)[..|buf|]
    ensures PAYLOAD_OFFSET <= |buf| ==>
              ClientPeek(buf[..PAYLOAD_OFFSET]) == Success(|FrameBytes(f)| - PAYLOAD_OFFSET)
    ensures ClientNeed(buf) <= |FrameBytes(f)|
  {
    hide ClientPeek, FrameBytes;
    PeekOfEncoded(f);
    if PAYLOAD_OFFSET <= |buf| {
      assert buf[..PAYLOAD_OFFSET] == FrameBytes(f)[..PAYLOAD_OFFSET];
    }
  }

  /** A completed request leaves the server's buffer and its reply joins the other channel. */
  lemma ServedKeepsInv(n: Net, rest: seq<byte>)
    requires Inv(n) && |n.served| < |n.sent| && rest == Concat(n.sent[|n.served| + 1..])
    ensures var f := n.sent[|n.served|];
            Inv(n.(toServer := rest, serverBuf := [],
                   toClient := n.toClient + FrameBytes(ReplyTo(f)), served := n.served + [f.header]))
  {
    hide FrameBytes, IsRequest, ReplyTo, Holds, Concat, Replies;
    var a, b := |n.received|, |n.served|;
    var r, reply := Replies(n.sent), ReplyTo(n.sent[b]);
    HoldsAppend(n.clientBuf, n.toClient, r[a..b], reply);
    HoldsFresh(rest, n.sent[b + 1..]);
    assert r[a..b + 1] == r[a..b] + [reply];
  }

  lemma AnswerIsReply(f: Frame, rest: seq<byte>)
    requires IsRequest(f)
    ensures Answer(FrameBytes(f), rest) == Served(Success(f.header), rest, FrameBytes(ReplyTo(f)))
    ensures |FrameBytes(ReplyTo(f))| == |FrameBytes(f)|
    ensures Receivable(ReplyTo(f))
  {
    ReplyAnswers(f);
    AnswerRequestBytes(f, rest);
  }

  lemma ServerReadKeepsInv(n: Net, k: nat)
    requires Inv(n) && Enabled(n, ServerRead(k))
    ensures Inv(ServerNext(n, k))
    ensures var m := ServerNext(n, k);
            2 * |m.toServer| + |m.serverBuf| + |m.toClient| + k == 2 * |n.toServer| + |n.serverBuf| + |n.toClient|
  {
    hide FrameBytes, Answer, IsRequest, ServerPeek, ReplyTo, Receivable, Replies;
    var left := n.sent[|n.served|..];
    NonEmptyConcat(left);
    var f := left[0];
    assert IsRequest(f);
    assert n.serverBuf == FrameBytes(f)[..|n.serverBuf|] by {
      ReadWithin(n.serverBuf, n.toServer, left, 0);
      assert n.serverBuf + n.toServer[..0] == n.serverBuf;
    }
    ServerNeedOfRequest(f, n.serverBuf);
    ReadWithin(n.serverBuf, n.toServer, left, k);
    var buf, rest := n.serverBuf + n.toServer[..k], n.toServer[k..];
    ServerNeedOfRequest(f, buf);
    if |buf| == |FrameBytes(f)| {
      AnswerIsReply(f, rest);
      assert left[1..] == n.sent[|n.served| + 1..];
      ServedKeepsInv(n, rest);
    }
  }

  lemma ParseFrame(f: Frame)
    requires Receivable(f)
    ensures ParseHeader(FrameBytes(f)) == Success(f)
  {
    DecodeUndoesEncode(f, []);
    assert FrameBytes(f) + [] == FrameBytes(f);
  }

  lemma ClientReadKeepsInv(n: Net, k: nat)
    requires Inv(n) && Enabled(n, ClientRead(k))
    ensures Inv(ClientNext(n, k))
    ensures |ClientNext(n, k).toClient| + k == |n.toClient|
  {
    hide FrameBytes, ClientPeek, ParseHeader, Receivable, ReplyTo, IsRequest;
    var left := Replies(n.sent)[|n.received|..|n.served|];
    NonEmptyConcat(left);
    var f := left[0];
    assert Receivable(f) by {
      assert f == ReplyTo(n.sent[|n.received|]) && IsRequest(n.sent[|n.received|]);
      AnswerIsReply(n.sent[|n.received|], []);
    }
    assert n.clientBuf == FrameBytes(f)[..|n.clientBuf|] by {
      ReadWithin(n.clientBuf, n.toClient, left, 0);
      assert n.clientBuf + n.toClient[..0] == n.clientBuf;
    }
    ClientNeedOfReply(f, n.clientBuf);
    ReadWithin(n.clientBuf, n.toClient, left, k);
    var m := ClientNext(n, k);
    var buf, rest := n.clientBuf + n.toClient[..k], n.toClient[k..];
    ClientNeedOfReply(f, buf);
    if |buf| == |FrameBytes(f)| {
      ParseFrame(f);
      assert left[1..] == Replies(n.sent)[|m.received|..|n.served|];
      assert m.received == Replies(n.sent)[..|m.received|];
    }
  }

  lemma StartInv()
    ensures Inv(START)
  {
  }

  /** Every event of every run keeps the invariant. */
  lemma {:induction false} InvHolds(es: seq<Event>)
    requires Legal(es)
    ensures Inv(Exec(es))
    decreases |es|
  {
    hide Inv, Enabled, SendNext, ServerNext, ClientNext;
    if es == [] {
      StartInv();
    } else {
      var front, e := es[..|es| - 1], es[|es| - 1];
      InvHolds(front);
      match e
      case ClientSend(h, p) => SendKeepsInv(Exec(front), h, p);
      case ServerRead(k) => ServerReadKeepsInv(Exec(front), k);
      case ClientRead(k) => ClientReadKeepsInv(Exec(front), k);
    }
  }

  // ---------------------------------------------------------------- what the client and the server see

  lemma ReplyToAnswers(f: Frame)
    requires IsRequest(f)
    ensures Answers(ReplyTo(f), f)
  {
    ReplyAnswers(f);
  }

  /**
   In every reachable state nobody has failed, the replies received answer the first requests sent,
   in order, and each channel with its reader's buffer holds exactly whole outstanding frames.
   */
  lemma {:induction false} EchoIsFaithful(es: seq<Event>)
    requires Legal(es)
    ensures var n := Exec(es);
            && n.serverError.None? && n.clientError.None?
            && |n.received| <= |n.served| <= |n.sent|
            && AllRequests(n.sent)
            && (forall k | 0 <= k < |n.received| :: Answers(n.received[k], n.sent[k]))
            && (forall k | 0 <= k < |n.served| :: n.served[k] == n.sent[k].header)
            && n.serverBuf + n.toServer == Concat(n.sent[|n.served|..])
            && n.clientBuf + n.toClient == Concat(Replies(n.sent)[|n.received|..|n.served|])
  {
    hide Legal, Exec, IsRequest, ReplyTo, Answers;
    InvHolds(es);
    var n := Exec(es);
    forall k | 0 <= k < |n.received|
      ensures Answers(n.received[k], n.sent[k])
    {
      ReplyToAnswers(n.sent[k]);
      assert n.received[k] == Replies(n.sent)[..|n.received|][k];
    }
  }

  /** Neither side can read. */
  ghost predicate Quiet(n: Net) {
    && (forall k :: !Enabled(n, ServerRead(k)))
    && (forall k :: !Enabled(n, ClientRead(k)))
  }

  lemma ServerCanRead(n: Net)
    requires Inv(n) && |n.served| < |n.sent|
    ensures Enabled(n, ServerRead(1))
  {
    hide FrameBytes, ServerPeek, ReplyTo, IsRequest;
    var f, left := n.sent[|n.served|], n.sent[|n.served|..];
    assert IsRequest(f);
    ReadWithin(n.serverBuf, n.toServer, left, 0);
    assert n.serverBuf + n.toServer[..0] == n.serverBuf;
    ServerNeedOfRequest(f, n.serverBuf);
  }

  lemma ClientCanRead(n: Net)
    requires Inv(n) && |n.received| < |n.served|
    ensures Enabled(n, ClientRead(1))
  {
    hide FrameBytes, ClientPeek, ReplyTo, IsRequest, Receivable, Answer;
    var left := Replies(n.sent)[|n.received|..|n.served|];
    assert IsRequest(n.sent[|n.received|]);
    AnswerIsReply(n.sent[|n.received|], []);
    ReadWithin(n.clientBuf, n.toClient, left, 0);
    assert n.clientBuf + n.toClient[..0] == n.clientBuf;
    ClientNeedOfReply(left[0], n.clientBuf);
  }

  lemma InvQuiet(n: Net)
    requires Inv(n)
    ensures Quiet(n) <==> |n.received| == |n.sent|
  {
    hide FrameBytes, ServerPeek, ClientPeek, ReplyTo, IsRequest;
    var toServe, toReceive := n.sent[|n.served|..], Replies(n.sent)[|n.received|..|n.served|];
    NonEmptyConcat(toServe);
    NonEmptyConcat(toReceive);
    if toServe != [] {
      ServerCanRead(n);
      assert Enabled(n, ServerRead(1));
    } else if toReceive != [] {
      ClientCanRead(n);
      assert Enabled(n, ClientRead(1));
    }
  }

  /** There is no deadlock: reading comes to rest exactly when every request has its reply. */
  lemma QuietWhenAnswered(es: seq<Event>)
    requires Legal(es)
    ensures Quiet(Exec(es)) <==> |Exec(es).received| == |Exec(es).sent|
  {
    InvHolds(es);
    InvQuiet(Exec(es));
  }

  /** Bytes still to be moved: a request's bytes twice, since its reply is as long. */
  function Work(n: Net): nat {
    2 * |n.toServer| + |n.serverBuf| + |n.toClient|
  }

  lemma ClientReadFrame(n: Net, k: nat)
    requires k <= |n.toClient|
    ensures ClientNext(n, k).toServer == n.toServer && ClientNext(n, k).serverBuf == n.serverBuf
  {
  }

  lemma ReadDoesWork(n: Net, e: Event)
    requires Inv(n) && Enabled(n, e) && !e.ClientSend?
    ensures Work(Next(n, e)) < Work(n)
  {
    hide Inv, SendNext;
    match e
    case ServerRead(k) => ServerReadKeepsInv(n, k);
    case ClientRead(k) => ClientReadKeepsInv(n, k); ClientReadFrame(n, k);
  }

  /** Reading alone always comes to rest, after at most `Work` events. */
  lemma {:induction false} ReadsTerminate(es: seq<Event>, readEvents: seq<Event>)
    requires Legal(es) && Legal(es + readEvents)
    requires forall i | 0 <= i < |readEvents| :: !readEvents[i].ClientSend?
    ensures |readEvents| + Work(Exec(es + readEvents)) <= Work(Exec(es))
    decreases |readEvents|
  {
    hide Inv, Enabled, SendNext, ServerNext, ClientNext;
    if readEvents == [] {
      assert es + readEvents == es;
    } else {
      var front, e := readEvents[..|readEvents| - 1], readEvents[|readEvents| - 1];
      assert (es + readEvents)[..|es + readEvents| - 1] == es + front;
      ReadsTerminate(es, front);
      InvHolds(es + front);
      ReadDoesWork(Exec(es + front), e);
    }
  }

  // ---------------------------------------------------------------- matching replies to requests

  /** How many sends the application has made. */
  function Sends(es: seq<Event>): nat {
    if es == [] then 0 else Sends(es[..|es| - 1]) + if es[|es| - 1].ClientSend? then 1 else 0
  }

  /** Only sends touch the sequence counter and the record of what was sent. */
  lemma SentByStep(n: Net, e: Event)
    requires Enabled(n, e)
    ensures var m := Next(n, e);
            if e.ClientSend? then
              && m.nextSeqnum == (n.nextSeqnum + 1) % SEQNUMS
              && (m.sent == n.sent || m.sent == n.sent + [Stamped(n, e.header, e.payload)])
            else m.nextSeqnum == n.nextSeqnum && m.sent == n.sent
  {
    hide Enabled, HeaderBytes, Answer, ServerPeek, ClientPeek, ParseHeader;
  }

  /** For each request in `sent`, how many sends came before it. */
  function Tags(es: seq<Event>): (tags: seq<nat>)
    requires Legal(es)
    decreases |es|
  {
    if es == [] then []
    else
      var front := es[..|es| - 1];
      if Exec(es).sent == Exec(front).sent then Tags(front) else Tags(front) + [Sends(front)]
  }

  predicate Numbered(fs: seq<Frame>, tags: seq<nat>, sends: nat) {
    && |tags| == |fs|
    && (forall i | 0 <= i < |tags| :: tags[i] < sends && fs[i].header.base.seqnum == tags[i] % SEQNUMS)
    && (forall i, j | 0 <= i < j < |tags| :: tags[i] < tags[j])
  }

  /** In every run each request carries the number of sends before it, modulo 2^32. */
  lemma {:induction false} RequestsAreNumbered(es: seq<Event>)
    requires Legal(es)
    ensures Exec(es).nextSeqnum == Sends(es) % SEQNUMS
    ensures Numbered(Exec(es).sent, Tags(es), Sends(es))
    decreases |es|
  {
    hide Enabled, Next;
    if es != [] {
      var front, e := es[..|es| - 1], es[|es| - 1];
      RequestsAreNumbered(front);
      SentByStep(Exec(front), e);
      ModSuccessor(Sends(front));
    }
  }

  /**
   In every run, also when the counter wraps, a reply's sequence number names the one request that
   it answers among all those fewer than 2^32 sends away from it.
   */
  lemma ReplyNamesItsRequest(es: seq<Event>, k: nat, j: nat)
    requires Legal(es) && k < |Exec(es).received| && j < |Exec(es).sent|
    ensures |Tags(es)| == |Exec(es).sent| && k < |Tags(es)|
    ensures -SEQNUMS < Tags(es)[j] - Tags(es)[k] < SEQNUMS ==>
              (Exec(es).received[k].header.base.seqnum == Exec(es).sent[j].header.base.seqnum <==> j == k)
  {
    hide Legal, Exec, Tags, IsRequest, ReplyTo, Sends, Holds;
    EchoIsFaithful(es);
    RequestsAreNumbered(es);
    var n, tags := Exec(es), Tags(es);
    assert Answers(n.received[k], n.sent[k]);
    if j < k && tags[k] - tags[j] < SEQNUMS {
      ModDistinct(tags[j], tags[k]);
    } else if k < j && tags[j] - tags[k] < SEQNUMS {
      ModDistinct(tags[k], tags[j]);
    }
  }
}
