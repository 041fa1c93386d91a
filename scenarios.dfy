/**
 * Clients of the driver that follow it through short sessions against a
 * device whose replies are given, and state what the caller observes.
 */
module Scenarios {
  import opened Wire
  import opened Transport
  import opened RotaryI2C

  /**
   * Bounds 0..10, starting at 0: the device reports 5, then 8. The first
   * read falls below 0 and jumps to 10; the second lands on 2.
   */
  method TwoReads() returns (first: Result<int>, second: Result<int>)
    ensures first == Ok(10) && second == Ok(2)
  {
    var enc := new RotaryEncoder(16, 17, devno := 0x36);
    DecodeEncode(5);
    DecodeEncode(8);
    first := enc.Position(EncodeInt32(5));
    second := enc.Position(EncodeInt32(8));
  }

  /** Bounds 0..10 at 5: a reported delta of -2 moves the position up to 7. */
  method NegativeDelta() returns (r: Result<int>)
    ensures r == Ok(7)
  {
    var enc := new RotaryEncoder(16, 17, devno := 0x36);
    enc.value := 5;
    DecodeMinusTwo();
    r := enc.Position([0xFF, 0xFF, 0xFF, 0xFE]);
  }

  /**
   * A driver built without a device address refuses both requests and
   * leaves the bus untouched; once a device is chosen the requests go out
   * to it, each followed by a 4-byte read.
   */
  method UnsetDevice(answer: seq<bv8>) returns (pos: Result<int>, btn: Result<bool>, log: seq<BusEvent>)
    requires |answer| == ReplySize
    ensures pos == Err(NoTargetDevice) && btn == Err(NoTargetDevice) && log == []
  {
    var enc := new RotaryEncoder(16, 17);
    pos := enc.Position(answer);
    btn := enc.Button(answer);
    log := enc.i2c.log;
  }

  /** After choosing device 0x36, a position read and a button read in that order. */
  method ChosenDevice(delta: seq<bv8>, status: seq<bv8>) returns (log: seq<BusEvent>, pressed: Result<bool>)
    requires |delta| == ReplySize && |status| == ReplySize
    ensures log == [WriteTo(0x36, [0x11, 0x40]), ReadFrom(0x36, 4), WriteTo(0x36, [0x01, 0x04]), ReadFrom(0x36, 4)]
    ensures pressed == Ok(status[0] as int % 2 == 0)
  {
    var enc := new RotaryEncoder(16, 17);
    enc.SetDevice(0x36);
    var _ := enc.Position(delta);
    pressed := enc.Button(status);
    log := enc.i2c.log;
  }
}
