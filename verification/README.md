# Verification model of easy-usb-core

A Dafny model of two parts of the crate `easy-usb-core`, with proofs about every byte stream, every
command history and every interleaving.

**The URB channel.** A header codec prints and parses a 48-byte big-endian header and an optional
payload. The client session and the echo server do not ask the codec how long a frame is: each peeks
at fixed offsets of the first 48 bytes, reads that much more and only then decodes, and their peeks
differ. On top of this sit the session's sequence numbers and `closed` flag, a request/reply protocol
over two byte channels, and the import handshake that opens a connection.

**The device registry.** An actor applies commands to a map of devices and to a derived index from
sessions to forwarded devices, and publishes snapshots.

## How it is built

| file | content |
|---|---|
| `Wrappers.dfy`, `Bytes.dfy` | Option and Result; fixed-width integers, network byte order, output buffer and read cursor |
| `Wire.dfy`, `Codec.dfy`, `CodecLaws.dfy` | message structures; the header codec; its layout, errors, round trips, stability and prefix-freeness |
| `Transport.dfy` | the byte stream under a connection |
| `Framing.dfy`, `Receiver.dfy` | the two framing peeks against the codec; what the client's receiver accepts |
| `Session.dfy`, `Server.dfy` | the client session; the echo server |
| `EchoProtocol.dfy`, `EchoRefinement.dfy` | both joined by two byte channels that hand over pieces; the pieces against whole calls of session and server |
| `Utf8.dfy`, `Types.dfy`, `ImportCodec.dfy`, `Handshake.dfy`, `BusidKeys.dfy` | UTF-8 names; device records; the import messages; client and server side of the handshake; which fields and names share a registry key |
| `Registry.dfy`, `RegistryLaws.dfy`, `RegistryHistory.dfy`, `RegistryActor.dfy` | the command handler; index and interleaving laws; laws about the past; the actor and its readers |

Code that changes state is imperative here too: `BytesMut`, `Cursor`, `ByteStream`, `TcpSession`,
`DeviceRegistry` and `Watch` are classes, and the codec, the receivers, the retry loop and the
registry loop are methods. Each method is proved equal to a function on values (`HeaderBytes`,
`ParseHeader`, `Receive`, `Step`, `Serve`, `Exchange`, `Handle`, `TaskState`), and the laws are
lemmas that set those functions against something else: encoders against decoders and field offsets,
peeks against the decoder, the receiver against the set of encodable frames, the index against
per-device histories, the two-party protocol against what one reply has to carry, and every outcome
of a codec, a handshake attempt, a receive or a command against the raw bytes, the environment or the
command's own fields.

The environment is arbitrary input. `ByteStream.inbound` is everything the peer will ever deliver
and `capacity` is where writes start to fail; an `Attempt` is what the network does to one handshake
attempt; a `Select` is what `select!` yields in one round; the events of `EchoProtocol` and
`RegistryActor` are in any order, and reads there take any number of bytes. Strings are their UTF-8
bytes. Header equality is structural, where the source's `PartialEq` compares only the basic header
(`crates/easy-usb-core/src/protocol/wire.rs:151-155`).

## Statements that are false of the code

Each comes with a concrete counterexample and the exact condition under which it does hold.

- Encoding then decoding need not give the frame back: the encoder does not compare the payload with
  the announced length (`MismatchedPayloadIsNotPreserved`). It does so exactly when they match
  (`RoundTripExactly`).
- Decoding then re-encoding may fail: the decoder accepts isochronous packets, the encoder does not
  (`IsochronousIsDecodedNotEncoded`). It succeeds exactly when none are announced (`EncodeUndoesDecode`).
- The client does not receive every frame that can be encoded: it takes a non-zero word at offset 32 for
  packets, but in an unlink that word is padding (`PaddedUnlinkExists`). `PeekOfEncoded` and
  `ReceiveExactly` give the exact set.
- The server's peek does not always lead to enough bytes (`StarvingFrameExists`): it fails exactly for a
  RET_SUBMIT that announces a payload (`ServerPeekRefinesDecoder`).
- Distinct bus fields need not give distinct registry keys. Two fields that are not UTF-8 may share one
  (`InvalidBytesCollide`), and so may a UTF-8 field with a replacement character in it and one that is not
  UTF-8 (`ReplacementCollides`). A field has its key to itself exactly when it is UTF-8 and holds no
  replacement character (`KeyIsUnshared`).
- Distinct names need not give distinct registry keys, since they are cut to 32 bytes (`LongNamesCollide`).
  They are asked for alike exactly when they agree up to that cut and up to trailing NULs (`FieldOfName`),
  and, where the cut is UTF-8, they then and only then share a key (`KeyOfName`).
- A published snapshot may be lost: with no subscriber the send fails and the old value stays, so the
  next subscriber sees a stale registry (`UnseenPublishIsLost`, `CurrentExactly`).
- Shutdown does not drain the queue, although a test is named for that
  (`crates/easy-usb-core/src/engine/registry.rs:1255`): `ShutdownMayDropCommands`, `AppliedAllExactly`.
- `Disconnected` is called terminal by a test (`crates/easy-usb-core/src/engine/registry.rs:944`), which
  is true of transitions only (`DisconnectedIsNotTerminal`): the state is left exactly by adding the
  device again or removing it (`DisconnectedIsLeftByAddOrRemove`).

## Model

| member | source | states |
|---|---|---|
| Bytes.NetworkOrder | crates/easy-usb-core/src/protocol/codec.rs:320-324 | words are written most significant byte first |
| Bytes.NetworkOrder16 | crates/easy-usb-core/src/protocol/codec.rs:227-229 | so are the 16-bit fields of an import reply |
| Bytes.TwosComplement | crates/easy-usb-core/src/protocol/codec.rs:372-375 | a signed field travels as the word congruent to it modulo 2^32 |
| Codec.EncodeBasic | crates/easy-usb-core/src/protocol/codec.rs:313-326 | rejects a direction other than OUT and IN and leaves the buffer alone; otherwise appends exactly the 20-byte layout that `BasicLayout` locates |
| Codec.EncodeCmdSubmit | crates/easy-usb-core/src/protocol/codec.rs:367-378 | rejects isochronous packets; otherwise appends the layout of `CmdSubmitLayout` |
| Codec.EncodeRetSubmit | crates/easy-usb-core/src/protocol/codec.rs:415-426 | rejects isochronous packets; otherwise appends the layout of `RetSubmitLayout` |
| Codec.EncodeCmdUnlink | crates/easy-usb-core/src/protocol/codec.rs:463-469 | appends the sequence number and, word by word, the six padding words |
| Codec.EncodeRetUnlink | crates/easy-usb-core/src/protocol/codec.rs:491-497 | appends the status and the six padding words |
| Codec.EncodeHeader | crates/easy-usb-core/src/protocol/codec.rs:43-101 | returns `HeaderBytes`; `EncodedLayout` says where each field of the header and the payload then stand, and `EncodeErrors` when it fails and with what |
| Codec.DecodeBasic | crates/easy-usb-core/src/protocol/codec.rs:328-365 | returns `ParseBasic`; the cursor always has the bytes it reads |
| Codec.DecodeCmdSubmit | crates/easy-usb-core/src/protocol/codec.rs:380-413 | five cursor reads and a copy equal the fields at fixed offsets; short input asks for 28 bytes |
| Codec.DecodeRetSubmit | crates/easy-usb-core/src/protocol/codec.rs:428-461 | the same for the reply |
| Codec.DecodeCmdUnlink | crates/easy-usb-core/src/protocol/codec.rs:471-489 | the padding loop fills the array with the six words in order |
| Codec.DecodeRetUnlink | crates/easy-usb-core/src/protocol/codec.rs:499-517 | the same for the reply |
| Codec.DecodeHeader | crates/easy-usb-core/src/protocol/codec.rs:103-185 | returns `ParseHeader`; `DecodedLayout` says which bytes each field is read from, and `DecodeErrors` when it fails and with what |
| CodecLaws.BasicLayout | crates/easy-usb-core/src/protocol/wire.rs:4-12 | command, seqnum, devid, direction and ep sit at offsets 0, 4, 8, 12 and 16, the command body at 20 |
| CodecLaws.CmdSubmitLayout | crates/easy-usb-core/src/protocol/wire.rs:14-23 | the offset of every CMD_SUBMIT field |
| CodecLaws.RetSubmitLayout | crates/easy-usb-core/src/protocol/wire.rs:25-34 | the offset of every RET_SUBMIT field |
| CodecLaws.UnlinkLayout | crates/easy-usb-core/src/protocol/wire.rs:36-48 | the offset of the unlink word and of every padding word |
| CodecLaws.EncodedLayout | crates/easy-usb-core/src/protocol/codec.rs:43-101 | for every header that can be encoded, each field of the basic header and of its body is the word (or the eight setup bytes) at its fixed offset 0 to 48 of the whole frame, and the payload follows at 48 |
| CodecLaws.DecodedLayout | crates/easy-usb-core/src/protocol/codec.rs:103-185 | for every buffer that is accepted, each field of the result is the word at the same fixed offset of the buffer, and the payload is the bytes from 48 |
| CodecLaws.EncodeErrors | crates/easy-usb-core/src/protocol/codec.rs:43-101 | each error of the encoder, with the condition on the header and payload under which, and only under which, it is returned |
| CodecLaws.DecodeErrors | crates/easy-usb-core/src/protocol/codec.rs:103-185 | each error of the decoder, with its numbers, by the length of the buffer and its words at 0, 12 and 24 |
| CodecLaws.WellFormedEncodes | crates/easy-usb-core/src/protocol/codec.rs:43-101 | encoding a well-formed frame cannot fail |
| CodecLaws.DecodeUndoesEncode | crates/easy-usb-core/src/protocol/codec.rs:43-185 | decoding an encoded well-formed frame gives it back, with any bytes appended |
| CodecLaws.EncodeUndoesDecode | crates/easy-usb-core/src/protocol/codec.rs:43-185 | re-encoding an accepted buffer reproduces its first 48 plus payload bytes exactly when no packets are announced, and is rejected as isochronous otherwise |
| CodecLaws.RoundTripExactly | crates/easy-usb-core/src/protocol/codec.rs:53-80 | what the encoder accepts survives decoding if and only if the payload has the announced length |
| CodecLaws.MismatchedPayloadIsNotPreserved | crates/easy-usb-core/src/protocol/codec.rs:53-64 | a frame that is encoded without complaint and decoded to another one |
| CodecLaws.IsochronousIsDecodedNotEncoded | crates/easy-usb-core/src/protocol/codec.rs:367-413 | a header that is decoded but cannot be encoded |
| CodecLaws.DecodeIsStable | crates/easy-usb-core/src/protocol/codec.rs:103-185 | appended bytes change no result other than IncompleteBuffer, which keeps its `needed` for every extension shorter than that |
| CodecLaws.GrowingSettles | crates/easy-usb-core/src/protocol/codec.rs:103-182 | growing the buffer to `needed` ends with the answer for the whole stream, unless the stream is too short for one |
| CodecLaws.AtMostThreeRounds | crates/easy-usb-core/src/protocol/codec.rs:103-182 | it takes at most three rounds: to 20, to 48, to 48 plus the announced payload |
| CodecLaws.EncodingsArePrefixFree | crates/easy-usb-core/src/protocol/codec.rs:43-101 | a stream splits into well-formed encodings in only one way |
| Framing.PeeksReadFields | crates/easy-usb-core/src/protocol/session.rs:114-155 | the words at the peeked offsets are the fields the decoder finds, for both peeks |
| Framing.PeekedLength | crates/easy-usb-core/src/protocol/session.rs:131-155 | the payload length each side reads, for every command, by the words at 0, 12 and 24; an unknown command or an unlink has none |
| Framing.PaddingAtPacketOffset | crates/easy-usb-core/src/protocol/session.rs:121-129 | for an unlink the word at offset 32 is the third padding word |
| Framing.ClientPeekRefinesDecoder | crates/easy-usb-core/src/protocol/session.rs:114-173 | after the client's peek the decoder cannot ask for more or find the payload too large, and returns exactly the bytes just read |
| Framing.ServerPeekRefinesDecoder | crates/easy-usb-core/src/protocol/server.rs:73-114 | the same for the server, except that the decoder asks for more if and only if the frame is a RET_SUBMIT with a payload |
| Framing.PeekOfEncoded | crates/easy-usb-core/src/protocol/session.rs:114-162 | on an encoded frame both peeks give the payload length, and the client's rejects exactly the frames whose word 32 is not zero |
| Receiver.ReceiveExactly | crates/easy-usb-core/src/protocol/session.rs:107-174 | one receive returns a frame if and only if the stream starts with that frame's encoding and the frame is receivable; it consumes the encoding and nothing else |
| Receiver.RejectionsAccounted | crates/easy-usb-core/src/protocol/session.rs:107-174 | the condition of every rejection, its numbers, and the bytes it consumes: 48 for isochronous or oversize, 48 plus payload for a decode error |
| Receiver.PaddedUnlinkRejected | crates/easy-usb-core/src/protocol/session.rs:121-129 | the well-formed frames that are not receivable are unlinks, rejected as isochronous with their 48 bytes consumed |
| Receiver.PaddedUnlinkExists | crates/easy-usb-core/src/protocol/session.rs:121-129 | such an unlink |
| Receiver.ReceiveAllSplitsStream | crates/easy-usb-core/src/protocol/session.rs:107-174 | the frames received re-encode to what was consumed, and the receiver stops only where it cannot go on |
| Receiver.ReceiveAllOfConcat | crates/easy-usb-core/src/protocol/session.rs:107-174 | from concatenated encodings, whatever follows, exactly the encoded list is received |
| Receiver.ReceivesLongestPrefix | crates/easy-usb-core/src/protocol/session.rs:87-174 | the lists of receivable frames whose encodings start the stream are exactly the prefixes of the list received |
| Session.TcpSession.Connect | crates/easy-usb-core/src/protocol/session.rs:29-50 | fails exactly as the handshake does; otherwise a session that is open, at sequence number 0, on what follows the reply of the first decisive attempt |
| Session.TcpSession.SendHeader | crates/easy-usb-core/src/protocol/session.rs:64-78 | is the send of `Step`, which `AttemptEffect` describes on every run |
| Session.TcpSession.RecvHeader | crates/easy-usb-core/src/protocol/session.rs:80-85 | is the receive of `Step`: refused on a closed session, otherwise as `ReceiveEffect` says, leaving the writing side alone also when it fails |
| Session.TcpSession.RecvHeaderOrClose | crates/easy-usb-core/src/protocol/session.rs:87-96 | is the closing receive of `Step`: does not look at `closed`, sets it and shuts the write half down on any error, and as `ReceiveEffect` says on nothing else |
| Session.TcpSession.RecvHeaderInner | crates/easy-usb-core/src/protocol/session.rs:107-174 | two reads and a decode from raw offsets equal `Receive` on the inbound stream |
| Session.SeqnumCountsAttempts | crates/easy-usb-core/src/protocol/session.rs:64-70 | over every run the counter is the number of sends attempted while open, modulo 2^32 |
| Session.AttemptEffect | crates/easy-usb-core/src/protocol/session.rs:64-78 | the n-th attempt writes the header with n mod 2^32 in place of its sequence number, and no other field changed, followed by the payload; on a failing write the part that fitted, on a failing encoding nothing; the number is used up either way |
| Session.ReceiveEffect | crates/easy-usb-core/src/protocol/session.rs:80-96 | at any point of any run a receive uses no number and writes nothing, returns the receiver's frame or error, and closes the session and the write half if and only if it is a failing closing receive |
| Session.RunConserves | crates/easy-usb-core/src/protocol/session.rs:64-96 | over every run output is only extended and input only taken from the front; if no closing receive fails, `closed` stays as it was and remaining capacity plus bytes written is constant |
| Session.SeqnumsDistinct | crates/easy-usb-core/src/protocol/session.rs:69-70 | attempts fewer than 2^32 apart have different numbers |
| Session.ClosedIsFinal | crates/easy-usb-core/src/protocol/session.rs:64-96 | after the first failing closing receive nothing is written, no number is used and every send fails |
| Session.ReceivesInOrder | crates/easy-usb-core/src/protocol/session.rs:80-96 | whatever is sent in between, a run returns the frames of the inbound stream in order, and the first receive to fail is the one made when they are used up |
| Server.ServeUrbEcho | crates/easy-usb-core/src/protocol/server.rs:62-181 | is `Serve` on the stream: result, bytes consumed, bytes written and room left, also when the write fails midway |
| Server.AnswerRequest | crates/easy-usb-core/src/protocol/server.rs:114-180 | decoding, replying and writing equal `Answer` |
| Server.ReplyAnswers | crates/easy-usb-core/src/protocol/server.rs:116-172 | the reply carries seqnum, devid, ep, matching command and the same payload with its length; it always encodes, is receivable and is exactly as long as the request; the length fallback is never taken |
| Server.ServeRequest | crates/easy-usb-core/src/protocol/server.rs:62-181 | an encoded request is consumed and its encoded reply written, whatever follows |
| Server.ServesExactlyRequests | crates/easy-usb-core/src/protocol/server.rs:62-181 | a call succeeds if and only if the stream starts with an encoded request, and then returns its header, consumes it and writes exactly the encoded reply; otherwise it writes nothing |
| Server.RefusalConditions | crates/easy-usb-core/src/protocol/server.rs:114-178 | a completely read request is refused exactly as `Refuses` says by its first 48 bytes, and answered if that allows no refusal |
| Server.RefusalsAccounted | crates/easy-usb-core/src/protocol/server.rs:62-181 | the condition of every refusal on a stream and the bytes it consumes: everything if the stream ends early, 48 for oversize, else 48 plus what the peek found |
| Server.RetSubmitStarvesDecoder | crates/easy-usb-core/src/protocol/server.rs:81-114 | a RET_SUBMIT with a payload makes the server's decoder ask for bytes, which stay unread on the stream |
| Server.StarvingFrameExists | crates/easy-usb-core/src/protocol/server.rs:81-114 | such a frame |
| EchoProtocol.EchoIsFaithful | crates/easy-usb-core/src/protocol/server.rs:62-181 | under every interleaving and segmentation nobody fails, the k-th reply answers the k-th request, and each channel with its reader's buffer holds exactly the whole outstanding frames |
| EchoProtocol.InvHolds | crates/easy-usb-core/src/protocol/session.rs:64-174 | every event of every run keeps the invariant of the two channels |
| EchoProtocol.QuietWhenAnswered | crates/easy-usb-core/src/protocol/server.rs:62-181 | no deadlock: reading comes to rest if and only if every request has its reply |
| EchoProtocol.ReadsTerminate | crates/easy-usb-core/src/protocol/server.rs:62-181 | reading alone comes to rest, after at most as many events as `Work` counts: unread request bytes twice, unread reply bytes once |
| EchoProtocol.RequestsAreNumbered | crates/easy-usb-core/src/protocol/session.rs:69-70 | in every run each request carries the number of sends before it, modulo 2^32, failed encodings included |
| EchoProtocol.ReplyNamesItsRequest | crates/easy-usb-core/src/protocol/session.rs:69-70 | in every run, also past the wrap, a reply's sequence number is that of the one request it answers among all fewer than 2^32 sends away |
| EchoRefinement.ServerReadIsServe | crates/easy-usb-core/src/protocol/server.rs:67-180 | the last of any number of partial reads ends as one call on all unread bytes would: result, bytes left and bytes written |
| EchoRefinement.ClientReadIsReceive | crates/easy-usb-core/src/protocol/session.rs:107-174 | the same for the client's receive |
| EchoRefinement.ClientIsSession | crates/easy-usb-core/src/protocol/session.rs:64-174 | the client's side of every run is a run of the session: the same frames returned, bytes written, sequence counter and stream position |
| EchoRefinement.ServesRequestsInTurn | crates/easy-usb-core/src/protocol/server.rs:62-181 | successive calls on concatenated requests return their headers and write their replies in order |
| EchoRefinement.ServerIsServeLoop | crates/easy-usb-core/src/protocol/server.rs:62-181 | the server's side of every run is successive calls on all that the client sent: the same headers, output and unread rest |
| Server.ServeWhole | crates/easy-usb-core/src/protocol/server.rs:67-112 | the same for the server: the call on any stream that starts with a complete request is the answer to that request |
| Receiver.ReceiveWhole | crates/easy-usb-core/src/protocol/session.rs:108-171 | a buffer of as many bytes as the peek asks for is all that one call looks at: the call on any stream that starts with it is its decoding, or the peek's rejection |
| Utf8.LossyFixedPoints | crates/easy-usb-core/src/port/types.rs:35 | lossy decoding changes a string if and only if it is not UTF-8 |
| Utf8.Utf8Exactly | crates/easy-usb-core/src/protocol/server.rs:44-46 | the strings accepted as UTF-8 are exactly the concatenated encodings of Unicode scalar values |
| Utf8.ReplacedPieceIsMaximal | crates/easy-usb-core/src/port/types.rs:35 | each replacement character stands for the longest beginning of the rest that also begins a character, or for a single byte |
| ImportCodec.EncodeOpReqImport | crates/easy-usb-core/src/protocol/codec.rs:187-194 | produces the 292-byte layout of `OpReqLayout` |
| ImportCodec.DecodeOpReqImport | crates/easy-usb-core/src/protocol/codec.rs:196-216 | short input asks for 292 bytes; otherwise the fields at running offsets, which are those of `OpReqLayout` by `OpReqExactly` |
| ImportCodec.EncodeOpRepImport | crates/easy-usb-core/src/protocol/codec.rs:218-237 | produces the 316-byte layout of `OpRepLayout` |
| ImportCodec.DecodeOpRepImport | crates/easy-usb-core/src/protocol/codec.rs:239-311 | short input asks for 316 bytes; otherwise the fields at running offsets |
| ImportCodec.OpReqLayout | crates/easy-usb-core/src/protocol/wire.rs:50-56 | status, path and bus field of a request sit at 0, 4 and 260 |
| ImportCodec.OpRepLayout | crates/easy-usb-core/src/protocol/wire.rs:58-76 | the offset of every reply field |
| ImportCodec.OpReqRoundTrip | crates/easy-usb-core/src/protocol/codec.rs:187-216 | decoding an encoded request gives it back, with any bytes appended |
| ImportCodec.OpReqRewrite | crates/easy-usb-core/src/protocol/codec.rs:187-216 | re-encoding a decoded request gives back its 292 bytes |
| ImportCodec.OpReqExactly | crates/easy-usb-core/src/protocol/codec.rs:196-216 | decoding gives a request if and only if the buffer starts with its encoding, and fails on short input only, with 292 and the length |
| ImportCodec.OpRepRoundTrip | crates/easy-usb-core/src/protocol/codec.rs:218-311 | decoding an encoded reply gives it back, with any bytes appended |
| ImportCodec.OpRepRewrite | crates/easy-usb-core/src/protocol/codec.rs:218-311 | re-encoding a decoded reply gives back its 316 bytes |
| ImportCodec.OpRepExactly | crates/easy-usb-core/src/protocol/codec.rs:239-311 | the same for a reply, with 316 |
| Handshake.MakeImportRequest | crates/easy-usb-core/src/protocol/handshake.rs:109-127 | copies at most 32 bytes of the name over zeros; every byte of the result is given by `RequestFields` |
| Handshake.RequestFields | crates/easy-usb-core/src/protocol/handshake.rs:109-127 | status 0x0111, the 23 bytes of the path prefix and then NULs, the first 32 bytes of the name and then NULs |
| Handshake.DoHandshake | crates/easy-usb-core/src/protocol/handshake.rs:77-107 | one attempt ends as `Exchange` says, having written exactly the request and read exactly the reply; `SuccessfulExchange` and `FailedExchange` give each outcome its condition |
| Handshake.ImportDevice | crates/easy-usb-core/src/protocol/handshake.rs:35-75 | the answer and the number of attempts satisfy `Retried`, which `RetriedExactly` restates by the attempts alone; the connection returned has exactly the request written and the reply read |
| Handshake.RetriedIsDetermined | crates/easy-usb-core/src/protocol/handshake.rs:45-74 | the attempts leave only one answer and one number of attempts |
| Handshake.SuccessfulExchange | crates/easy-usb-core/src/protocol/handshake.rs:77-107 | an attempt succeeds if and only if the request fits and the peer sent the encoding of a reply with status 0 and non-zero busnum and devnum |
| Handshake.FailedExchange | crates/easy-usb-core/src/protocol/handshake.rs:77-107 | a timeout, a failed connection, a rejection with its status and an invalid reply each occur if and only if the network timed out, refused or broke off, or the peer sent the encoding of a reply with that status, or with status 0 and a zero number |
| Handshake.RetriedExactly | crates/easy-usb-core/src/protocol/handshake.rs:35-75 | an empty name makes no attempt; three attempts without a complete reply give MaxRetriesExceeded(3); otherwise the first attempt with a complete reply is the last one and decides |
| Handshake.ImportedDevice | crates/easy-usb-core/src/port/types.rs:33-49 | every field of the device record is taken from its place in the bytes that the peer sent |
| Handshake.AcceptDevice | crates/easy-usb-core/src/protocol/server.rs:34-51 | reads 292 bytes and applies the two checks of the name; `AcceptedExactly` gives the condition |
| Handshake.AcceptedExactly | crates/easy-usb-core/src/protocol/server.rs:34-51 | for any bytes, a request is accepted if and only if they start with its encoding and its name is UTF-8 and not all NUL; the accept itself fails on fewer than 292 bytes only |
| Handshake.RequestAccepted | crates/easy-usb-core/src/protocol/server.rs:40-48 | the server accepts the client's request if and only if the first 32 bytes of the name are UTF-8 and not all NUL |
| Handshake.TrimUndoesPad | crates/easy-usb-core/src/protocol/handshake.rs:110-116 | trimming undoes padding if and only if the name has at most 32 bytes and does not end in NUL |
| Handshake.BusidSurvives | crates/easy-usb-core/src/protocol/handshake.rs:109-126 | a UTF-8 name that fits arrives unchanged at the server and, from a reply, as the registry key |
| BusidKeys.KeyIsTrimmedField | crates/easy-usb-core/src/port/types.rs:33-49 | the key is the field without trailing NULs if and only if the field is UTF-8 |
| BusidKeys.KeysAreInjective | crates/easy-usb-core/src/port/types.rs:33-49 | devices whose 32-byte bus fields are UTF-8 have equal keys if and only if the fields are equal |
| BusidKeys.InvalidBytesCollide | crates/easy-usb-core/src/port/types.rs:35 | two fields that are not UTF-8 and share a key |
| BusidKeys.ReplacementCollides | crates/easy-usb-core/src/port/types.rs:35 | a UTF-8 field that shares its key with one that is not UTF-8 |
| BusidKeys.KeyIsUnshared | crates/easy-usb-core/src/port/types.rs:35 | no other field has a field's key if and only if the field is UTF-8 and holds no replacement character |
| BusidKeys.FieldOfName | crates/easy-usb-core/src/protocol/handshake.rs:109-126 | two names give one request field if and only if they agree up to 32 bytes and trailing NULs |
| BusidKeys.LongNamesCollide | crates/easy-usb-core/src/protocol/handshake.rs:112-116 | two distinct UTF-8 names with one and the same request |
| BusidKeys.KeyOfName | crates/easy-usb-core/src/port/types.rs:35 | names whose first 32 bytes are UTF-8 share a key if and only if they agree up to the cut and trailing NULs |
| BusidKeys.SurvivingNamesHaveOwnKeys | crates/easy-usb-core/src/port/types.rs:35 | among the names that survive the handshake, equal keys mean equal names |
| Registry.DeviceRegistry.HandleCommand | crates/easy-usb-core/src/engine/registry.rs:185-264 | the update in place equals `Handle` on the snapshot; `AddEffect`, `RemoveEffect` and `TransitionEffect` say what each command does to the state of any history |
| Registry.DeviceRegistry.RemoveForwarding | crates/easy-usb-core/src/engine/registry.rs:244-251 | the `retain` loop keeps the order of what stays, and an emptied list is dropped |
| RegistryLaws.RemoveEffect | crates/easy-usb-core/src/engine/registry.rs:212-226 | after any history, removing the named device takes it, and nothing else, out of the devices and out of every list, whose order stays |
| RegistryLaws.AddEffect | crates/easy-usb-core/src/engine/registry.rs:187-211 | after any history, adding a device makes it idle if its name is unknown or disconnected, and otherwise changes nothing |
| RegistryLaws.TransitionEffect | crates/easy-usb-core/src/engine/registry.rs:227-264 | after any history, a valid transition changes the named device's state only, takes it out of every list and appends it to that of the session it is now forwarded to; an invalid one changes nothing |
| RegistryLaws.HandleKeepsInverse | crates/easy-usb-core/src/engine/registry.rs:185-264 | every command keeps the index the inverse of the device states; the lookups never miss and the containment guard is always true |
| RegistryLaws.IndexIsInverse | crates/easy-usb-core/src/engine/registry.rs:161-264 | in every reachable state a session's list holds exactly the devices forwarded to it, without duplicates and never empty, and each key is its device's name |
| RegistryLaws.FoldFollowsEntries | crates/easy-usb-core/src/engine/registry.rs:185-264 | the registry's devices are what following each device on its own gives |
| RegistryLaws.DeviceDependsOnItsCommands | crates/easy-usb-core/src/engine/registry.rs:161-264 | a device's entry is the same after all commands as after its own commands only |
| RegistryLaws.InterleavingsAgree | crates/easy-usb-core/src/engine/registry.rs:161-264 | merging the same per-device streams differently gives equal devices and equal list members |
| RegistryHistory.ForwardedSince | crates/easy-usb-core/src/engine/registry.rs:244-260 | a device forwarded to a session was bound, and has been forwarded to that session ever since the command at its forwarding time |
| RegistryHistory.ListsInForwardOrder | crates/easy-usb-core/src/engine/registry.rs:244-258 | each list is in the order in which its devices were last forwarded, each of them to this session by the command at its forwarding time |
| RegistryHistory.ListIsDetermined | crates/easy-usb-core/src/engine/registry.rs:244-258 | a list is the session's list if and only if it has the right members in forwarding order |
| RegistryHistory.ForwardingsConserved | crates/easy-usb-core/src/engine/registry.rs:212-262 | the list lengths add up to the number of forwarded devices, and to forwardings started minus forwardings ended |
| RegistryHistory.LifeCycle | crates/easy-usb-core/src/engine/registry.rs:187-278 | between successive registry states a device's entry stays the same if and only if the command names another device in its own field or is one of those to be ignored, which an independent graph of states decides; otherwise the command has the effect it names |
| RegistryHistory.BoundBetweenForwardings | crates/easy-usb-core/src/engine/registry.rs:266-278 | two forwardings to different sessions have a bound moment between them |
| RegistryHistory.DisconnectedIsLeftByAddOrRemove | crates/easy-usb-core/src/engine/registry.rs:187-226 | a disconnected device leaves that state if and only if a device of its name is added, which makes that one idle, or its name is removed |
| RegistryHistory.DisconnectedIsNotTerminal | crates/easy-usb-core/src/engine/registry.rs:190-198 | a history in which a device is disconnected and then idle |
| RegistryHistory.RecordIsConstant | crates/easy-usb-core/src/engine/registry.rs:187-260 | a record does not change while its device is known and not disconnected |
| RegistryHistory.RecordComesFromAdd | crates/easy-usb-core/src/engine/registry.rs:187-211 | every record is the one of an AddDevice that made its device idle, and has been the same ever since |
| RegistryActor.RunRegistry | crates/easy-usb-core/src/engine/registry.rs:161-183 | the loop uses rounds up to the first stop, and leaves the state and snapshot of exactly those |
| RegistryActor.Watch.Send | crates/easy-usb-core/src/engine/registry.rs:175 | a publish without receivers fails and keeps the old value |
| RegistryActor.TaskFollowsCommands | crates/easy-usb-core/src/engine/registry.rs:166-176 | over all rounds the loop's state is that of every command received, and its published snapshot that of the commands up to the last one which found a reader |
| RegistryActor.RecordsFollowEvents | crates/easy-usb-core/src/engine/registry.rs:113-183 | readers, the running flag, what was accepted, how much of it was applied and what is queued follow from the events of the run alone |
| RegistryActor.PossibleEvents | crates/easy-usb-core/src/engine/registry.rs:113-183 | which event can follow a run, by what happened in it: room in the queue for a send, something queued for a command, a signal for the shutdown, no senders and an empty queue for hanging up |
| RegistryActor.TakenIsPublished | crates/easy-usb-core/src/engine/registry.rs:170-175 | at every point of every run the registry takes the oldest accepted command not yet applied, and its result is published if and only if there is a subscriber |
| RegistryActor.SnapshotsArePrefixes | crates/easy-usb-core/src/engine/registry.rs:161-183 | at every moment state and snapshot are the results of prefixes of the accepted commands, with a consistent index, and agree with the loop |
| RegistryActor.ReadersNeverGoBack | crates/easy-usb-core/src/engine/registry.rs:161-183 | the prefix a reader sees never shrinks, and a stopped registry never changes |
| RegistryActor.CurrentExactly | crates/easy-usb-core/src/engine/registry.rs:113-175 | the snapshot covers everything applied if and only if the last command found a reader |
| RegistryActor.UnseenPublishIsLost | crates/easy-usb-core/src/engine/registry.rs:113-175 | a device added before the first subscription is not in that subscriber's snapshot |
| RegistryActor.ShutdownMayDropCommands | crates/easy-usb-core/src/engine/registry.rs:177-180 | an accepted command that is never applied |
| RegistryActor.AppliedAllExactly | crates/easy-usb-core/src/engine/registry.rs:168-182 | a stopped registry applied all it accepted if and only if its queue was empty then |

## Left out

- Sockets, tokio tasks, wall-clock time, keepalive options and logging: replaced by the arbitrary inputs above.
- Error message texts: only the variant and its numbers are kept.
- Reading a header's union under a command that does not match it: headers carry a tag that agrees with the command.
- Session.TcpSession.Connect: a failing keepalive setup, which the source reports as ConnectionFailed, does not occur in the model.
- Transport.ByteStream.ReadExact: after a failed read the stream counts as drained; the source leaves this to the transport.
- In the two-party protocol the client may also send in the middle of a receive, which `&mut self` excludes, so the laws cover more runs than the code has; a write joins its channel at once, which reads of any size make indistinguishable from a write in pieces.
- Handshake.DoHandshake: a timeout can strike anywhere in an attempt; it is one outcome of the attempt, without the bytes already exchanged.
- Accepting a TCP connection can fail before any byte is read; `AcceptDevice` starts on an accepted connection.
- When a command and the shutdown signal are both ready, either may be taken; the order is an arbitrary input.
- The shutdown call's five-second wait and the join handle: they do not touch the registry's state.
- The port interfaces, their mocks and the empty CLI and daemon programs have no behaviour to prove.
- Header accessors, `from_command` and `direction()` would only add easy members.
- Conformance with the USB/IP protocol documentation is not claimed: the layouts are this repository's, whose import messages are shorter than the protocol's.
