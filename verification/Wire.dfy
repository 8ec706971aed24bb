/**
 The message structures of `protocol/wire.rs`. The C union of `UsbipHeader` is the tagged
 datatype `CommandSpecific`; `TagAgrees` says that the tag matches `base.command`, which the
 unsafe union reads of the codec rely on.
 */
module Wire {
  import opened Bytes
  import opened Wrappers

  const CMD_SUBMIT: u32 := 0x0001
  const CMD_UNLINK: u32 := 0x0002
  const RET_SUBMIT: u32 := 0x0003
  const RET_UNLINK: u32 := 0x0004
  const USBIP_DIR_OUT: u32 := 0
  const USBIP_DIR_IN: u32 := 1
  const USBIP_VERSION: u16 := 0x0111

  const BASIC_HEADER_SIZE := 20
  const CMD_HEADER_SIZE := 28
  const PAYLOAD_OFFSET := 48
  const OP_REQ_IMPORT_SIZE := 292
  const OP_REP_IMPORT_SIZE := 316
  const MAX_PAYLOAD_SIZE := 1_048_576

  type Setup = s: seq<byte> | |s| == 8 witness [0, 0, 0, 0, 0, 0, 0, 0]
  type Padding = s: seq<u32> | |s| == 6 witness [0, 0, 0, 0, 0, 0]
  type Path = s: seq<byte> | |s| == 256 witness seq(256, _ => 0)
  type BusidField = s: seq<byte> | |s| == 32 witness seq(32, _ => 0)

  datatype UsbipHeaderBasic = UsbipHeaderBasic(command: u32, seqnum: u32, devid: u32, direction: u32, ep: u32)

  datatype UsbipHeaderCmdSubmit = UsbipHeaderCmdSubmit(
    transferFlags: u32,
    transferBufferLength: i32,
    startFrame: i32,
    numberOfPackets: i32,
    interval: i32,
    setup: Setup)

  datatype UsbipHeaderRetSubmit = UsbipHeaderRetSubmit(
    status: i32,
    actualLength: i32,
    startFrame: i32,
    numberOfPackets: i32,
    errorCount: i32,
    setup: Setup)

  datatype UsbipHeaderCmdUnlink = UsbipHeaderCmdUnlink(seqnum: u32, padding: Padding)

  datatype UsbipHeaderRetUnlink = UsbipHeaderRetUnlink(status: i32, padding: Padding)

  datatype CommandSpecific =
    | CmdSubmit(cmdSubmit: UsbipHeaderCmdSubmit)
    | RetSubmit(retSubmit: UsbipHeaderRetSubmit)
    | CmdUnlink(cmdUnlink: UsbipHeaderCmdUnlink)
    | RetUnlink(retUnlink: UsbipHeaderRetUnlink)

  datatype UsbipHeader = UsbipHeader(base: UsbipHeaderBasic, u: CommandSpecific) {
    predicate TagAgrees() {
      && (base.command == CMD_SUBMIT ==> u.CmdSubmit?)
      && (base.command == RET_SUBMIT ==> u.RetSubmit?)
      && (base.command == CMD_UNLINK ==> u.CmdUnlink?)
      && (base.command == RET_UNLINK ==> u.RetUnlink?)
    }
  }

  /** A header with the payload that accompanies it. */
  datatype Frame = Frame(header: UsbipHeader, payload: Option<seq<byte>>)

  datatype OpReqImport = OpReqImport(status: u32, path: Path, busid: BusidField)

  datatype OpRepImport = OpRepImport(
    status: u32,
    path: Path,
    busid: BusidField,
    busnum: u32,
    devnum: u32,
    speed: u32,
    idVendor: u16,
    idProduct: u16,
    bcdDevice: u16,
    bDeviceClass: byte,
    bDeviceSubClass: byte,
    bDeviceProtocol: byte,
    bConfigurationValue: byte,
    bNumConfigurations: byte,
    bNumInterfaces: byte)

  /** `ProtocolError` without its message strings; the device-speed variant is not used here. */
  datatype ProtocolError =
    | IncompleteBuffer(needed: nat, available: nat)
    | InvalidCommand(command: u32)
    | BufferTooLarge(size: nat, max: nat)
    | IsochronousNotSupported
    | EncodingError
    | IoError

  predicate ValidDirection(direction: u32) {
    direction == USBIP_DIR_OUT || direction == USBIP_DIR_IN
  }

  predicate KnownCommand(command: u32) {
    command == CMD_SUBMIT || command == RET_SUBMIT || command == CMD_UNLINK || command == RET_UNLINK
  }

  /** The number of payload bytes that a header announces. */
  function DeclaredPayload(h: UsbipHeader): nat
    requires h.TagAgrees()
  {
    if h.base.command == CMD_SUBMIT && h.base.direction == USBIP_DIR_OUT && h.u.cmdSubmit.transferBufferLength > 0 then
      h.u.cmdSubmit.transferBufferLength
    else if h.base.command == RET_SUBMIT && h.u.retSubmit.actualLength > 0 then
      h.u.retSubmit.actualLength
    else
      0
  }

  /** The header asks for isochronous packets. */
  predicate Isochronous(h: UsbipHeader)
    requires h.TagAgrees()
  {
    || (h.base.command == CMD_SUBMIT && h.u.cmdSubmit.numberOfPackets != 0)
    || (h.base.command == RET_SUBMIT && h.u.retSubmit.numberOfPackets != 0)
  }

  /** The payload is exactly what the header announces. */
  predicate PayloadMatches(f: Frame)
    requires f.header.TagAgrees()
  {
    var n := DeclaredPayload(f.header);
    if n == 0 then f.payload.None? else f.payload.Some? && |f.payload.value| == n <= MAX_PAYLOAD_SIZE
  }

  /** A frame that the codec carries faithfully. */
  predicate WellFormed(f: Frame) {
    && f.header.TagAgrees()
    && KnownCommand(f.header.base.command)
    && ValidDirection(f.header.base.direction)
    && !Isochronous(f.header)
    && PayloadMatches(f)
  }
}
