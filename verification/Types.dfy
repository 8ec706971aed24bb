/** The device record of `port/types.rs`, and its conversion from an import reply. Strings are their UTF-8 bytes. */
module Types {
  import opened Bytes
  import opened Utf8
  import opened Wire
  import opened Wrappers

  type Str = seq<byte>

  datatype UsbDeviceSpeed = LowSpeed | FullSpeed | HighSpeed | SuperSpeed

  datatype UsbDevice = UsbDevice(
    busid: Str,
    vid: u16,
    pid: u16,
    manufacturer: Option<Str>,
    product: Option<Str>,
    busnum: u32,
    devnum: u32,
    speed: UsbDeviceSpeed,
    bDeviceClass: byte,
    bDeviceSubClass: byte,
    bDeviceProtocol: byte)

  /** Unknown speed values fall back to high speed. */
  function SpeedOf(value: u32): UsbDeviceSpeed {
    if value == 1 then LowSpeed
    else if value == 2 then FullSpeed
    else if value == 4 then SuperSpeed
    else HighSpeed
  }

  /** The registry key of a device: the reply's 32-byte field, decoded lossily and without trailing NULs. */
  function BusidOf(field: BusidField): Str {
    TrimNul(Lossy(field))
  }

  function DeviceOf(rep: OpRepImport): UsbDevice {
    UsbDevice(BusidOf(rep.busid), rep.idVendor, rep.idProduct, None, None, rep.busnum, rep.devnum,
              SpeedOf(rep.speed), rep.bDeviceClass, rep.bDeviceSubClass, rep.bDeviceProtocol)
  }
}
