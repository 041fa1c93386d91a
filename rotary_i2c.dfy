/**
 * The RotaryI2C driver: a rotary encoder on an I2C bus whose accumulated
 * position is kept between two bounds, and whose push button can be polled.
 */
module RotaryI2C {
  import opened Wire
  import opened Transport

  /** The one error the driver itself raises. */
  datatype DriverError = NoTargetDevice  // devno is still 0

  datatype Result<T> = Ok(value: T) | Err(error: DriverError)

  /**
   * The bound policy applied after each delta: a value below lo jumps to hi,
   * a value above hi jumps to lo, and anything else (the bounds included)
   * is kept. It is a jump to the opposite bound, not a modular wrap.
   */
  function WrapAround(v: int, lo: int, hi: int): (r: int)
    ensures lo <= hi ==> lo <= r <= hi
    ensures lo <= v <= hi ==> r == v
    ensures r == v || r == lo || r == hi
  {
    if v < lo then hi else if v > hi then lo else v
  }

  /** Falling below the lower bound, by any amount, lands exactly on the upper bound. */
  lemma WrapBelow(v: int, lo: int, hi: int)
    requires v < lo
    ensures WrapAround(v, lo, hi) == hi
  {
  }

  /** Rising above the upper bound, by any amount, lands exactly on the lower bound. */
  lemma WrapAbove(v: int, lo: int, hi: int)
    requires hi < v && lo <= v
    ensures WrapAround(v, lo, hi) == lo
  {
  }

  /** Landing exactly on a bound is not re-wrapped, in either direction. */
  lemma WrapKeepsBounds(lo: int, hi: int)
    requires lo <= hi
    ensures WrapAround(lo, lo, hi) == lo
    ensures WrapAround(hi, lo, hi) == hi
  {
  }

  /** The new position after one delta: the delta is subtracted, then wrapped. */
  function NextValue(value: int, reply: seq<bv8>, lo: int, hi: int): (r: int)
    requires |reply| == ReplySize
    ensures lo <= hi ==> lo <= r <= hi
    ensures lo <= value - DecodeInt32(reply) <= hi ==> r == value - DecodeInt32(reply)
  {
    WrapAround(value - DecodeInt32(reply), lo, hi)
  }

  /**
   * A device that reports delta d moves the position from value to
   * value - d when that stays within the bounds, and otherwise to the
   * bound opposite the one it crossed.
   */
  lemma NextValueOfDelta(value: int, d: int, lo: int, hi: int)
    requires IsInt32(d) && lo <= hi
    ensures value - d < lo ==> NextValue(value, EncodeInt32(d), lo, hi) == hi
    ensures value - d > hi ==> NextValue(value, EncodeInt32(d), lo, hi) == lo
    ensures lo <= value - d <= hi ==> NextValue(value, EncodeInt32(d), lo, hi) == value - d
  {
    DecodeEncode(d);
  }

  class RotaryEncoder {
    const pinSda: int
    const pinScl: int
    const freq: int
    /** The bus the driver owns. */
    const i2c: I2CBus

    /** The bounds of the position; callers may change them at any time. */
    var minVal: int
    var maxVal: int
    /** The accumulated position. */
    var value: int
    /** The bus address of the encoder; 0 means no device has been chosen. */
    var devno: int

    constructor (pinSda: int, pinScl: int, freq: int := 400000,
                 minVal: int := 0, maxVal: int := 10, devno: int := 0)
      ensures this.pinSda == pinSda && this.pinScl == pinScl && this.freq == freq
      ensures this.minVal == minVal && this.maxVal == maxVal && this.devno == devno
      ensures value == minVal
      ensures fresh(i2c) && i2c.sda == pinSda && i2c.scl == pinScl && i2c.freq == freq
      ensures i2c.log == []
    {
      this.pinSda, this.pinScl, this.freq := pinSda, pinScl, freq;
      this.minVal, this.maxVal := minVal, maxVal;
      value := minVal;
      i2c := new I2CBus(pinSda, pinScl, freq);
      this.devno := devno;
    }

    /** Chooses the device to talk to; nothing else changes and the bus is idle. */
    method SetDevice(devno: int)
      modifies this
      ensures this.devno == devno
      ensures minVal == old(minVal) && maxVal == old(maxVal) && value == old(value)
      ensures i2c.log == old(i2c.log)
    {
      this.devno := devno;
    }

    /**
     * Sends cdata to the chosen device. Without a device it fails before
     * touching the bus; otherwise it returns the count the bus reports.
     */
    method I2CWrite(cdata: seq<bv8>) returns (r: Result<nat>)
      modifies i2c
      ensures devno == 0 ==> r == Err(NoTargetDevice) && i2c.log == old(i2c.log)
      ensures devno != 0 ==> r == Ok(|cdata|) && i2c.log == old(i2c.log) + [WriteTo(devno, cdata)]
    {
      if devno == 0 {
        return Err(NoTargetDevice);
      }
      var nsent := i2c.WriteToDevice(devno, cdata);
      r := Ok(nsent);
    }

    /**
     * Sends the request cdata, then reads dsize bytes back from the same
     * device; answer is what the device replies. Fails like I2CWrite, with
     * no bus activity at all, when no device has been chosen.
     */
    method I2CRead(cdata: seq<bv8>, dsize: nat, answer: seq<bv8>) returns (r: Result<seq<bv8>>)
      requires |answer| == dsize
      modifies i2c
      ensures devno == 0 ==> r == Err(NoTargetDevice) && i2c.log == old(i2c.log)
      ensures devno != 0 ==> r == Ok(answer)
      ensures devno != 0 ==> i2c.log == old(i2c.log) + [WriteTo(devno, cdata), ReadFrom(devno, dsize)]
    {
      var sent := I2CWrite(cdata);
      if sent.Err? {
        return Err(sent.error);
      }
      var reply := new bv8[dsize];
      i2c.ReadFromInto(devno, reply, answer);
      r := Ok(reply[..]);
    }

    /**
     * Asks the device for the delta since the last read, subtracts it from
     * the position and applies WrapAround; returns the new position.
     * answer is the device's 4-byte reply.
     */
    method Position(answer: seq<bv8>) returns (r: Result<int>)
      requires |answer| == ReplySize
      modifies this, i2c
      ensures minVal == old(minVal) && maxVal == old(maxVal) && devno == old(devno)
      ensures devno == 0 ==> r == Err(NoTargetDevice) && value == old(value) && i2c.log == old(i2c.log)
      ensures devno != 0 ==> value == NextValue(old(value), answer, minVal, maxVal) && r == Ok(value)
      ensures devno != 0 && minVal <= maxVal ==> minVal <= value <= maxVal
      ensures devno != 0 ==> i2c.log == old(i2c.log) + [WriteTo(devno, PositionRequest), ReadFrom(devno, ReplySize)]
    {
      var reply := I2CRead(PositionRequest, ReplySize, answer);
      if reply.Err? {
        return Err(reply.error);
      }
      var delta := DecodeInt32(reply.value);
      value := value - delta;
      if value < minVal {
        value := maxVal;
      } else if value > maxVal {
        value := minVal;
      }
      r := Ok(value);
    }

    /**
     * Asks the device for its button word; true when the button is down.
     * answer is the device's 4-byte reply.
     */
    method Button(answer: seq<bv8>) returns (r: Result<bool>)
      requires |answer| == ReplySize
      modifies i2c
      ensures devno == 0 ==> r == Err(NoTargetDevice) && i2c.log == old(i2c.log)
      ensures devno != 0 ==> r == Ok(ButtonPressed(answer))
      ensures devno != 0 ==> i2c.log == old(i2c.log) + [WriteTo(devno, ButtonRequest), ReadFrom(devno, ReplySize)]
    {
      var pressed := false;
      var reply := I2CRead(ButtonRequest, ReplySize, answer);
      if reply.Err? {
        return Err(reply.error);
      }
      if reply.value[0] & 0x01 == 0 {
        pressed := true;
      }
      r := Ok(pressed);
    }
  }
}
