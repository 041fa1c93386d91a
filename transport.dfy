/**
 * The I2C transport the driver talks through, reduced to what the driver can
 * observe of it: every transaction is appended to a log, and what a read
 * fills its buffer with is whatever the device answers, supplied by the caller.
 */
module Transport {

  /** One transaction on the bus, as seen from the controller. */
  datatype BusEvent =
    | WriteTo(addr: int, data: seq<bv8>)  // bytes sent to the device at addr
    | ReadFrom(addr: int, size: nat)      // size bytes read back from addr

  class I2CBus {
    /** The pins and clock the bus was set up with; only recorded. */
    const sda: int
    const scl: int
    const freq: int

    /** Every transaction issued on this bus so far, oldest first. */
    var log: seq<BusEvent>

    constructor (sda: int, scl: int, freq: int)
      ensures this.sda == sda && this.scl == scl && this.freq == freq
      ensures log == []
    {
      this.sda, this.scl, this.freq := sda, scl, freq;
      log := [];
    }

    /** Sends data to addr; returns the number of bytes the bus accepted. */
    method WriteToDevice(addr: int, data: seq<bv8>) returns (nsent: nat)
      modifies this
      ensures log == old(log) + [WriteTo(addr, data)]
      ensures nsent == |data|
    {
      log := log + [WriteTo(addr, data)];
      nsent := |data|;
    }

    /** Fills buf with the device's answer, one byte per slot of buf. */
    method ReadFromInto(addr: int, buf: array<bv8>, answer: seq<bv8>)
      requires |answer| == buf.Length
      modifies this, buf
      ensures log == old(log) + [ReadFrom(addr, buf.Length)]
      ensures buf[..] == answer
    {
      forall i | 0 <= i < buf.Length {
        buf[i] := answer[i];
      }
      log := log + [ReadFrom(addr, buf.Length)];
    }
  }
}
