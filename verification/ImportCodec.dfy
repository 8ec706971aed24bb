/** The OP_REQ_IMPORT and OP_REP_IMPORT codecs of `protocol/codec.rs`. */
module ImportCodec {
  import opened Bytes
  import opened Wire
  import opened Wrappers

  function OpReqBytes(req: OpReqImport): (b: seq<byte>)
    ensures |b| == OP_REQ_IMPORT_SIZE
  {
    U32Bytes(req.status) + req.path + req.busid
  }

  function OpReqOf(b: seq<byte>): OpReqImport
    requires OP_REQ_IMPORT_SIZE <= |b|
  {
    OpReqImport(U32At(b, 0), b[4..260], b[260..292])
  }

  function ParseOpReq(b: seq<byte>): Result<OpReqImport, ProtocolError> {
    if |b| < OP_REQ_IMPORT_SIZE then Failure(IncompleteBuffer(OP_REQ_IMPORT_SIZE, |b|)) else Success(OpReqOf(b))
  }

  function OpRepWords(rep: OpRepImport): (b: seq<byte>)
    ensures |b| == 310
  {
    U32Bytes(rep.status) + rep.path + rep.busid
    + U32Bytes(rep.busnum) + U32Bytes(rep.devnum) + U32Bytes(rep.speed)
    + U16Bytes(rep.idVendor) + U16Bytes(rep.idProduct) + U16Bytes(rep.bcdDevice)
  }

  function OpRepBytes(rep: OpRepImport): (b: seq<byte>)
    ensures |b| == OP_REP_IMPORT_SIZE
  {
    OpRepWords(rep)
    + [rep.bDeviceClass, rep.bDeviceSubClass, rep.bDeviceProtocol,
       rep.bConfigurationValue, rep.bNumConfigurations, rep.bNumInterfaces]
  }

  function OpRepOf(b: seq<byte>): OpRepImport
    requires OP_REP_IMPORT_SIZE <= |b|
  {
    OpRepImport(U32At(b, 0), b[4..260], b[260..292],
                U32At(b, 292), U32At(b, 296), U32At(b, 300),
                U16Of(b[304..306]), U16Of(b[306..308]), U16Of(b[308..310]),
                b[310], b[311], b[312], b[313], b[314], b[315])
  }

  function ParseOpRep(b: seq<byte>): Result<OpRepImport, ProtocolError> {
    if |b| < OP_REP_IMPORT_SIZE then Failure(IncompleteBuffer(OP_REP_IMPORT_SIZE, |b|)) else Success(OpRepOf(b))
  }

  method EncodeOpReqImport(req: OpReqImport) returns (r: seq<byte>)
    ensures r == OpReqBytes(req)
  {
    var buf := new BytesMut();
    buf.PutU32(req.status);
    buf.PutSlice(req.path);
    buf.PutSlice(req.busid);
    r := buf.data;
  }

  method DecodeOpReqImport(buf: seq<byte>) returns (r: Result<OpReqImport, ProtocolError>)
    ensures r == ParseOpReq(buf)
  {
    if |buf| < OP_REQ_IMPORT_SIZE {
      return Failure(IncompleteBuffer(OP_REQ_IMPORT_SIZE, |buf|));
    }
    var offset := 0;
    var status := U32Of(buf[offset..offset + 4]);
    offset := offset + 4;
    var path := buf[offset..offset + 256];
    offset := offset + 256;
    var busid := buf[offset..offset + 32];
    return Success(OpReqImport(status, path, busid));
  }

  /** The fields wider than a byte. */
  method PutOpRepWords(rep: OpRepImport, buf: BytesMut)
    modifies buf
    ensures buf.data == old(buf.data) + OpRepWords(rep)
  {
    hide U32Bytes, U16Bytes;
    buf.PutU32(rep.status);
    buf.PutSlice(rep.path);
    buf.PutSlice(rep.busid);
    buf.PutU32(rep.busnum);
    buf.PutU32(rep.devnum);
    buf.PutU32(rep.speed);
    buf.PutU16(rep.idVendor);
    buf.PutU16(rep.idProduct);
    buf.PutU16(rep.bcdDevice);
  }

  method EncodeOpRepImport(rep: OpRepImport) returns (r: seq<byte>)
    ensures r == OpRepBytes(rep)
  {
    hide U32Bytes, U16Bytes, OpRepWords;
    var buf := new BytesMut();
    PutOpRepWords(rep, buf);
    ghost var words := buf.data;
    assert words == OpRepWords(rep);
    buf.PutU8(rep.bDeviceClass);
    buf.PutU8(rep.bDeviceSubClass);
    buf.PutU8(rep.bDeviceProtocol);
    buf.PutU8(rep.bConfigurationValue);
    buf.PutU8(rep.bNumConfigurations);
    buf.PutU8(rep.bNumInterfaces);
    assert buf.data == words + [rep.bDeviceClass, rep.bDeviceSubClass, rep.bDeviceProtocol,
                                rep.bConfigurationValue, rep.bNumConfigurations, rep.bNumInterfaces];
    r := buf.data;
  }

  method DecodeOpRepImport(buf: seq<byte>) returns (r: Result<OpRepImport, ProtocolError>)
    ensures r == ParseOpRep(buf)
  {
    if |buf| < OP_REP_IMPORT_SIZE {
      return Failure(IncompleteBuffer(OP_REP_IMPORT_SIZE, |buf|));
    }
    var offset := 0;
    var status := U32Of(buf[offset..offset + 4]);
    offset := offset + 4;
    var path := buf[offset..offset + 256];
    offset := offset + 256;
    var busid := buf[offset..offset + 32];
    offset := offset + 32;
    var busnum := U32Of(buf[offset..offset + 4]);
    offset := offset + 4;
    var devnum := U32Of(buf[offset..offset + 4]);
    offset := offset + 4;
    var speed := U32Of(buf[offset..offset + 4]);
    offset := offset + 4;
    var idVendor := U16Of(buf[offset..offset + 2]);
    offset := offset + 2;
    var idProduct := U16Of(buf[offset..offset + 2]);
    offset := offset + 2;
    var bcdDevice := U16Of(buf[offset..offset + 2]);
    offset := offset + 2;
    var bDeviceClass := buf[offset];
    offset := offset + 1;
    var bDeviceSubClass := buf[offset];
    offset := offset + 1;
    var bDeviceProtocol := buf[offset];
    offset := offset + 1;
    var bConfigurationValue := buf[offset];
    offset := offset + 1;
    var bNumConfigurations := buf[offset];
    offset := offset + 1;
    var bNumInterfaces := buf[offset];
    return Success(OpRepImport(status, path, busid, busnum, devnum, speed, idVendor, idProduct, bcdDevice,
                               bDeviceClass, bDeviceSubClass, bDeviceProtocol,
                               bConfigurationValue, bNumConfigurations, bNumInterfaces));
  }

  // ---------------------------------------------------------------- round trips

  /** Where each field of a request is on the wire. */
  lemma OpReqLayout(req: OpReqImport)
    ensures var b := OpReqBytes(req);
            |b| == 292 && b[0..4] == U32Bytes(req.status) && b[4..260] == req.path && b[260..292] == req.busid
  {
  }

  lemma OpReqRoundTrip(req: OpReqImport, suffix: seq<byte>)
    ensures ParseOpReq(OpReqBytes(req) + suffix) == Success(req)
  {
    var b := OpReqBytes(req) + suffix;
    assert b[0..4] == U32Bytes(req.status) && b[4..260] == req.path && b[260..292] == req.busid;
    U32RoundTrip(req.status);
  }

  lemma OpReqRewrite(b: seq<byte>)
    requires OP_REQ_IMPORT_SIZE <= |b|
    ensures OpReqBytes(OpReqOf(b)) == b[..OP_REQ_IMPORT_SIZE]
  {
    U32Rewrites(b[0..4]);
  }

  /** Decoding finds a request exactly where its encoding is, and fails on short input only. */
  lemma OpReqExactly(b: seq<byte>, req: OpReqImport)
    ensures ParseOpReq(b) == Success(req) <==> OpReqBytes(req) <= b
    ensures |b| < 292 ==> ParseOpReq(b) == Failure(IncompleteBuffer(292, |b|))
    ensures |b| >= 292 ==> ParseOpReq(b).Success?
  {
    hide OpReqBytes, OpReqOf;
    if 292 <= |b| {
      OpReqRewrite(b);
    }
    if OpReqBytes(req) <= b {
      assert b == OpReqBytes(req) + b[292..];
      OpReqRoundTrip(req, b[292..]);
    }
  }

  /** Where each field of a reply is on the wire. */
  lemma OpRepLayout(rep: OpRepImport)
    ensures var b := OpRepBytes(rep);
            && |b| == 316
            && b[0..4] == U32Bytes(rep.status) && b[4..260] == rep.path && b[260..292] == rep.busid
            && b[292..296] == U32Bytes(rep.busnum)
            && b[296..300] == U32Bytes(rep.devnum)
            && b[300..304] == U32Bytes(rep.speed)
            && b[304..306] == U16Bytes(rep.idVendor)
            && b[306..308] == U16Bytes(rep.idProduct)
            && b[308..310] == U16Bytes(rep.bcdDevice)
            && b[310..316] == [rep.bDeviceClass, rep.bDeviceSubClass, rep.bDeviceProtocol,
                               rep.bConfigurationValue, rep.bNumConfigurations, rep.bNumInterfaces]
  {
    hide U32Bytes, U16Bytes;
  }

  lemma OpRepRoundTrip(rep: OpRepImport, suffix: seq<byte>)
    ensures ParseOpRep(OpRepBytes(rep) + suffix) == Success(rep)
  {
    hide U32Bytes, U32Of, U16Bytes, U16Of, OpRepBytes;
    var b := OpRepBytes(rep) + suffix;
    OpRepLayout(rep);
    assert forall i, k | 0 <= i <= k <= OP_REP_IMPORT_SIZE :: b[i..k] == OpRepBytes(rep)[i..k];
    U32RoundTrip(rep.status);
    U32RoundTrip(rep.busnum);
    U32RoundTrip(rep.devnum);
    U32RoundTrip(rep.speed);
    U16RoundTrip(rep.idVendor);
    U16RoundTrip(rep.idProduct);
    U16RoundTrip(rep.bcdDevice);
    assert b[310..316][0] == b[310] && b[310..316][1] == b[311] && b[310..316][2] == b[312];
    assert b[310..316][3] == b[313] && b[310..316][4] == b[314] && b[310..316][5] == b[315];
  }

  lemma U16Rewrites(b: seq<byte>)
    requires |b| == 2
    ensures U16Bytes(U16Of(b)) == b
  {
    BigEndianWritesRead(b);
  }

  lemma Join(b: seq<byte>, mid: nat, end: nat)
    requires mid <= end <= |b|
    ensures b[0..mid] + b[mid..end] == b[0..end]
  {
  }

  lemma OpRepRewrite(b: seq<byte>)
    requires OP_REP_IMPORT_SIZE <= |b|
    ensures OpRepBytes(OpRepOf(b)) == b[..OP_REP_IMPORT_SIZE]
  {
    hide U32Bytes, U32Of, U16Bytes, U16Of;
    U32Rewrites(b[0..4]);
    U32Rewrites(b[292..296]);
    U32Rewrites(b[296..300]);
    U32Rewrites(b[300..304]);
    U16Rewrites(b[304..306]);
    U16Rewrites(b[306..308]);
    U16Rewrites(b[308..310]);
    Join(b, 4, 260);
    Join(b, 260, 292);
    Join(b, 292, 296);
    Join(b, 296, 300);
    Join(b, 300, 304);
    Join(b, 304, 306);
    Join(b, 306, 308);
    Join(b, 308, 310);
    Join(b, 310, 316);
    assert b[310..316] == [b[310], b[311], b[312], b[313], b[314], b[315]];
  }

  lemma OpRepExactly(b: seq<byte>, rep: OpRepImport)
    ensures ParseOpRep(b) == Success(rep) <==> OpRepBytes(rep) <= b
    ensures |b| < 316 ==> ParseOpRep(b) == Failure(IncompleteBuffer(316, |b|))
    ensures |b| >= 316 ==> ParseOpRep(b).Success?
  {
    hide OpRepBytes, OpRepOf;
    if 316 <= |b| {
      OpRepRewrite(b);
    }
    if OpRepBytes(rep) <= b {
      assert b == OpRepBytes(rep) + b[316..];
      OpRepRoundTrip(rep, b[316..]);
    }
  }
}
