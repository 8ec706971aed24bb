/**
 The byte transport under a connection. `inbound` is everything the peer will deliver before the
 stream ends; `capacity` is how many more bytes the transport accepts before writes fail. Both
 are arbitrary, so a theorem over all of them covers every peer and every failure point.
 */
module Transport {
  import opened Bytes

  class ByteStream {
    var inbound: seq<byte>
    var outbound: seq<byte>
    var capacity: nat

    constructor (inbound: seq<byte>, capacity: nat)
      ensures this.inbound == inbound && this.outbound == [] && this.capacity == capacity
    {
      this.inbound := inbound;
      this.outbound := [];
      this.capacity := capacity;
    }

    /** `read_exact`: the bytes asked for, or an error that drains the stream. */
    method ReadExact(n: nat) returns (ok: bool, data: seq<byte>)
      modifies this`inbound
      ensures ok == (n <= |old(inbound)|)
      ensures ok ==> data == old(inbound)[..n] && inbound == old(inbound)[n..]
      ensures !ok ==> inbound == []
    {
      ok := n <= |inbound|;
      if ok {
        data, inbound := inbound[..n], inbound[n..];
      } else {
        data, inbound := [], [];
      }
    }

    /** `write_all`: everything, or an error after the part that still fitted. */
    method WriteAll(data: seq<byte>) returns (ok: bool)
      modifies this`outbound, this`capacity
      ensures ok == (|data| <= old(capacity))
      ensures ok ==> outbound == old(outbound) + data && capacity == old(capacity) - |data|
      ensures !ok ==> outbound == old(outbound) + data[..old(capacity)] && capacity == 0
    {
      ok := |data| <= capacity;
      var n := if ok then |data| else capacity;
      outbound := outbound + data[..n];
      capacity := capacity - n;
    }

    /** Closing the write half: nothing more is accepted. */
    method Shutdown()
      modifies this`capacity
      ensures capacity == 0
    {
      capacity := 0;
    }
  }
}
