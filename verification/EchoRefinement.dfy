/**
 The piecewise protocol against the whole calls it stands for: the client's side of every run is a
 run of the session, and the server's side is `serve_urb_echo` called over and over.
 */
module EchoRefinement {
  import opened Bytes
  import opened Codec
  import opened CodecLaws
  import opened EchoProtocol
  import opened Framing
  import opened Receiver
  import opened Server
  import opened Session
  import opened Wire
  import opened Wrappers

  // ---------------------------------------------------------------- the last piece of a call

  lemma SameHead(buf: seq<byte>, more: seq<byte>)
    ensures PAYLOAD_OFFSET <= |buf| ==> (buf + more)[..PAYLOAD_OFFSET] == buf[..PAYLOAD_OFFSET]
  {
  }

  /** A read in pieces ends, well or badly, exactly as one call on all the bytes still unread. */
  lemma ServerReadIsServe(n: Net, k: nat)
    requires n.serverError.None? && Enabled(n, ServerRead(k))
    ensures var m, s := ServerNext(n, k), Serve(n.serverBuf + n.toServer);
            && (|m.served| > |n.served| ==>
                  && s.result == Success(m.served[|n.served|])
                  && m.served == n.served + [s.result.value]
                  && m.toServer == s.rest && m.serverBuf == [] && m.toClient == n.toClient + s.output)
            && (m.serverError.Some? ==> s.result == Failure(m.serverError.value) && m.toServer == s.rest)
  {
    hide ServerPeek, Answer, Serve;
    var buf, rest := n.serverBuf + n.toServer[..k], n.toServer[k..];
    assert buf + rest == n.serverBuf + n.toServer;
    if PAYLOAD_OFFSET <= |buf| {
      SameHead(n.serverBuf, n.toServer[..k]);
      ServeWhole(buf, rest);
    }
  }

  lemma ClientReadIsReceive(n: Net, k: nat)
    requires n.clientError.None? && Enabled(n, ClientRead(k))
    ensures var m, r := ClientNext(n, k), Receive(n.clientBuf + n.toClient);
            && (|m.received| > |n.received| ==>
                  && r == Received(Success(m.received[|n.received|]), m.toClient)
                  && m.received == n.received + [r.result.value] && m.clientBuf == [])
            && (m.clientError.Some? ==> r == Received(Failure(m.clientError.value), m.toClient))
  {
    hide ClientPeek, ParseHeader, Receive;
    var buf, rest := n.clientBuf + n.toClient[..k], n.toClient[k..];
    assert buf + rest == n.clientBuf + n.toClient;
    if PAYLOAD_OFFSET <= |buf| {
      SameHead(n.clientBuf, n.toClient[..k]);
      ReceiveWhole(buf, rest);
    }
  }

  // ---------------------------------------------------------------- the client is a session

  /** The session operations that a run amounts to: its sends, and one receive per frame received. */
  function ClientOps(es: seq<Event>): seq<Op>
    requires Legal(es)
    decreases |es|
  {
    if es == [] then []
    else
      var front, e := es[..|es| - 1], es[|es| - 1];
      if e.ClientSend? then ClientOps(front) + [Send(e.header, e.payload)]
      else if |Exec(es).received| > |Exec(front).received| then ClientOps(front) + [Recv]
      else ClientOps(front)
  }

  /** Everything the server has written so far: received, being read, or still in the channel. */
  function ServerOutput(n: Net): seq<byte> {
    Concat(n.received) + n.clientBuf + n.toClient
  }

  /** A session that is as far as the protocol's client. */
  predicate Mirrors(t: SessionState, n: Net, inbound: seq<byte>, capacity: nat) {
    && Concat(n.received) <= inbound
    && |Concat(n.sent)| <= capacity
    && t == SessionState(n.nextSeqnum, false, inbound[|Concat(n.received)|..], Concat(n.sent),
                         capacity - |Concat(n.sent)|)
  }

  lemma ConcatOneMore(fs: seq<Frame>, f: Frame)
    ensures Concat(fs + [f]) == Concat(fs) + FrameBytes(f)
  {
    hide FrameBytes;
    ConcatAppend(fs, [f]);
    assert FrameBytes(f) + [] == FrameBytes(f);
  }

  /** A send is the session's send. */
  lemma SendMirrors(t: SessionState, n: Net, h: TaggedHeader, p: Option<seq<byte>>, inbound: seq<byte>, capacity: nat)
    requires Enabled(n, ClientSend(h, p)) && Mirrors(t, n, inbound, capacity)
    requires |Concat(SendNext(n, h, p).sent)| <= capacity
    ensures Mirrors(Step(t, Send(h, p)).0, SendNext(n, h, p), inbound, capacity)
    ensures ServerOutput(SendNext(n, h, p)) == ServerOutput(n)
    ensures SendNext(n, h, p).received == n.received && !Step(t, Send(h, p)).1.Got?
  {
    hide HeaderBytes, FrameBytes, Concat, IsRequest, Receive;
    var f := Stamped(n, h, p);
    var encoded := HeaderBytes(f.header, p);
    if encoded.Success? {
      RequestBytes(f);
      ConcatOneMore(n.sent, f);
      assert encoded.value[..|encoded.value|] == encoded.value;
    }
  }

  /** What a last piece completes is the encoding of the frame returned. */
  lemma FrameReceived(n: Net, k: nat)
    requires Inv(n) && Enabled(n, ClientRead(k)) && |ClientNext(n, k).received| > |n.received|
    ensures var m := ClientNext(n, k);
            var f := m.received[|n.received|];
            && m.received == n.received + [f] && Receivable(f)
            && n.clientBuf + n.toClient[..k] == FrameBytes(f) && m.clientBuf == []
  {
    hide FrameBytes, ParseHeader, ClientPeek, Receive, Concat, Holds, Replies, AllRequests;
    var m := ClientNext(n, k);
    var buf := n.clientBuf + n.toClient[..k];
    SameHead(n.clientBuf, n.toClient[..k]);
    ReceiveWhole(buf, []);
    ReceivedIsEncoded(buf + []);
    assert buf + [] == buf && FrameBytes(m.received[|n.received|]) + [] == FrameBytes(m.received[|n.received|]);
  }

  lemma ClientOutputKept(n: Net, k: nat)
    requires Inv(n) && Enabled(n, ClientRead(k))
    ensures ServerOutput(ClientNext(n, k)) == ServerOutput(n)
    ensures ClientNext(n, k).sent == n.sent
  {
    hide FrameBytes, ParseHeader, ClientPeek, Concat, Holds, Replies, AllRequests, ClientNeed;
    var m := ClientNext(n, k);
    ClientReadKeepsInv(n, k);
    assert n.clientBuf + n.toClient == (n.clientBuf + n.toClient[..k]) + n.toClient[k..];
    if |m.received| > |n.received| {
      FrameReceived(n, k);
      ConcatOneMore(n.received, m.received[|n.received|]);
    }
  }

  /** Receiving a frame that is next on the stream. */
  lemma ReceiveMirrors(t: SessionState, n: Net, m: Net, f: Frame, inbound: seq<byte>, capacity: nat)
    requires Mirrors(t, n, inbound, capacity) && Receivable(f)
    requires Concat(n.received) + FrameBytes(f) <= inbound
    requires m.received == n.received + [f] && m.sent == n.sent && m.nextSeqnum == n.nextSeqnum
    ensures Step(t, Recv).1 == Got(f) && Mirrors(Step(t, Recv).0, m, inbound, capacity)
  {
    hide FrameBytes, Receive, Concat, Receivable;
    ConcatOneMore(n.received, f);
    var c := Concat(n.received);
    var rest := inbound[|c + FrameBytes(f)|..];
    assert inbound[|c|..] == FrameBytes(f) + rest;
    ReceiveEncoded(f, rest);
  }

  /** Reading a last piece is the session's receive; reading another one is nothing to the session. */
  lemma ClientReadMirrors(t: SessionState, n: Net, k: nat, inbound: seq<byte>, capacity: nat)
    requires Inv(n) && Enabled(n, ClientRead(k)) && Mirrors(t, n, inbound, capacity)
    requires ServerOutput(n) <= inbound
    ensures var m := ClientNext(n, k);
            if |m.received| > |n.received| then
              var (u, r) := Step(t, Recv);
              r.Got? && m.received == n.received + [r.frame] && Mirrors(u, m, inbound, capacity)
            else m.received == n.received && Mirrors(t, m, inbound, capacity)
  {
    hide FrameBytes, ParseHeader, ClientPeek, Step, Concat, Inv, Receivable;
    var m := ClientNext(n, k);
    if |m.received| > |n.received| {
      var f := m.received[|n.received|];
      FrameReceived(n, k);
      assert n.clientBuf + n.toClient == FrameBytes(f) + n.toClient[k..];
      assert ServerOutput(n) == (Concat(n.received) + FrameBytes(f)) + n.toClient[k..];
      ReceiveMirrors(t, n, m, f, inbound, capacity);
    }
  }

  /** What the server does is nothing to the session, except that there is more to receive. */
  lemma ServerReadMirrors(t: SessionState, n: Net, k: nat, inbound: seq<byte>, capacity: nat)
    requires Enabled(n, ServerRead(k)) && Mirrors(t, n, inbound, capacity)
    ensures var m := ServerNext(n, k);
            && ServerOutput(n) <= ServerOutput(m)
            && m.received == n.received && m.sent == n.sent
            && Mirrors(t, m, inbound, capacity)
  {
    hide Answer, ServerPeek, Concat;
  }

  lemma StartIsSession(inbound: seq<byte>, capacity: nat)
    ensures var s := SessionState(0, false, inbound, [], capacity);
            && Legal([])
            && Mirrors(After(s, ClientOps([])), Exec([]), inbound, capacity)
            && Gots(s, ClientOps([])) == Exec([]).received
  {
    assert inbound[0..] == inbound;
  }

  /** One more event of a run. */
  lemma OneMoreEvent(es: seq<Event>)
    requires Legal(es) && es != []
    ensures var front, e := es[..|es| - 1], es[|es| - 1];
            && Legal(front) && Enabled(Exec(front), e) && Exec(es) == Next(Exec(front), e)
            && ClientOps(es) ==
               if e.ClientSend? then ClientOps(front) + [Send(e.header, e.payload)]
               else if |Exec(es).received| > |Exec(front).received| then ClientOps(front) + [Recv]
               else ClientOps(front)
  {
    hide Enabled, Next;
  }

  lemma OneMoreOp(s: SessionState, ops: seq<Op>, op: Op)
    ensures After(s, ops + [op]) == Step(After(s, ops), op).0
    ensures var r := Step(After(s, ops), op).1;
            Gots(s, ops + [op]) == if r.Got? then Gots(s, ops) + [r.frame] else Gots(s, ops)
  {
    hide Step;
    assert (ops + [op])[..|ops|] == ops;
  }

  /** Bytes sent and bytes written by the server only grow. */
  lemma EventGrows(n: Net, e: Event)
    requires Inv(n) && Enabled(n, e)
    ensures ServerOutput(n) <= ServerOutput(Next(n, e))
    ensures |Concat(n.sent)| <= |Concat(Next(n, e).sent)|
  {
    hide Inv, Concat, Answer, ServerPeek, HeaderBytes;
    match e
    case ClientSend(h, p) =>
      if Next(n, e).sent != n.sent {
        ConcatOneMore(n.sent, Stamped(n, h, p));
      }
    case ServerRead(k) =>
    case ClientRead(k) => ClientOutputKept(n, k);
  }

  /**
   The client's side of every run is a run of the session: with any inbound stream that starts with
   what the server wrote, and room for what was sent, the session's operations return exactly the
   frames that were received and write exactly the bytes that were sent.
   */
  lemma {:induction false} ClientIsSession(es: seq<Event>, inbound: seq<byte>, capacity: nat)
    requires Legal(es)
    requires ServerOutput(Exec(es)) <= inbound && |Concat(Exec(es).sent)| <= capacity
    ensures var s := SessionState(0, false, inbound, [], capacity);
            && Mirrors(After(s, ClientOps(es)), Exec(es), inbound, capacity)
            && Gots(s, ClientOps(es)) == Exec(es).received
    decreases |es|
  {
    hide Legal, Exec, ClientOps, Enabled, SendNext, ServerNext, ClientNext;
    hide Step, After, Gots, Inv, Concat, ServerOutput, Mirrors;
    var s := SessionState(0, false, inbound, [], capacity);
    if es == [] {
      StartIsSession(inbound, capacity);
    } else {
      var front, e := es[..|es| - 1], es[|es| - 1];
      OneMoreEvent(es);
      InvHolds(front);
      EventGrows(Exec(front), e);
      ClientIsSession(front, inbound, capacity);
      var ops, t := ClientOps(front), After(s, ClientOps(front));
      match e
      case ClientSend(h, p) =>
        SendMirrors(t, Exec(front), h, p, inbound, capacity);
        OneMoreOp(s, ops, Send(h, p));
      case ServerRead(k) =>
        ServerReadMirrors(t, Exec(front), k, inbound, capacity);
      case ClientRead(k) =>
        ClientReadMirrors(t, Exec(front), k, inbound, capacity);
        OneMoreOp(s, ops, Recv);
    }
  }

  // ---------------------------------------------------------------- the server is a serving loop

  /** Up to `calls` successive calls of the server on one stream: results, bytes written, bytes left. */
  function ServeTimes(inbound: seq<byte>, calls: nat): (seq<UsbipHeader>, seq<byte>, seq<byte>) {
    if calls == 0 then ([], [], inbound)
    else
      var s := Serve(inbound);
      if s.result.Failure? then ([], [], s.rest)
      else
        var (headers, output, rest) := ServeTimes(s.rest, calls - 1);
        ([s.result.value] + headers, s.output + output, rest)
  }

  function Headers(fs: seq<Frame>): seq<UsbipHeader> {
    seq(|fs|, i requires 0 <= i < |fs| => fs[i].header)
  }

  lemma ServeFirst(f: Frame, more: seq<byte>)
    requires IsRequest(f)
    ensures Serve(FrameBytes(f) + more) == Served(Success(f.header), more, FrameBytes(ReplyTo(f)))
  {
    ServeRequest(f, more);
  }

  /** On encoded requests the server returns their headers and writes their replies, one by one. */
  lemma {:induction false} ServesRequestsInTurn(fs: seq<Frame>, tail: seq<byte>)
    requires AllRequests(fs)
    ensures ServeTimes(Concat(fs) + tail, |fs|) == (Headers(fs), Concat(Replies(fs)), tail)
  {
    hide FrameBytes, IsRequest, Serve;
    if fs == [] {
      assert Concat(fs) + tail == tail && Headers(fs) == [] && Replies(fs) == [];
    } else {
      var f, more := fs[0], Concat(fs[1..]) + tail;
      assert Concat(fs) + tail == FrameBytes(f) + more;
      ServeFirst(f, more);
      ServesRequestsInTurn(fs[1..], tail);
      assert Headers(fs) == [f.header] + Headers(fs[1..]);
      assert Replies(fs) == [ReplyTo(f)] + Replies(fs[1..]);
    }
  }

  lemma InvServes(n: Net)
    requires Inv(n)
    ensures ServeTimes(Concat(n.sent), |n.served|) == (n.served, ServerOutput(n), n.serverBuf + n.toServer)
  {
    hide FrameBytes, IsRequest, ServeTimes, ReplyTo, Replies, Concat;
    var a, b := |n.received|, |n.served|;
    var done, left := n.sent[..b], n.sent[b..];
    assert n.sent == done + left;
    ConcatAppend(done, left);
    ServesRequestsInTurn(done, Concat(left));
    assert Headers(done) == n.served;
    var r := Replies(n.sent);
    assert Replies(done) == r[..a] + r[a..b];
    ConcatAppend(r[..a], r[a..b]);
    assert ServerOutput(n) == Concat(n.received) + (n.clientBuf + n.toClient);
  }

  /**
   The server's side of every run is what successive calls do on the bytes that the client sent:
   they return the headers served so far, have written exactly what the client got or is still to
   read, and leave the requests not yet served.
   */
  lemma ServerIsServeLoop(es: seq<Event>)
    requires Legal(es)
    ensures var n := Exec(es);
            ServeTimes(Concat(n.sent), |n.served|) == (n.served, ServerOutput(n), n.serverBuf + n.toServer)
  {
    InvHolds(es);
    InvServes(Exec(es));
  }
}
