# RotaryI2C in Dafny

A model of the `RotaryI2C` MicroPython driver for an I2C rotary encoder
breakout running the Adafruit seesaw firmware. The driver keeps an
accumulated position `value` between `min_val` and `max_val`, asks the
encoder for the delta since the last read, and polls the push button.

- `wire.dfy` (module `Wire`): the command bytes (`0x11 0x40` for the encoder
  delta, `0x01 0x04` for the GPIO bulk read), the signed big-endian 32-bit
  decoding of a 4-byte reply (the `">l"` format of `struct.unpack`) with a
  reference encoder and round trips both ways, and the active-low button bit.
- `transport.dfy` (module `Transport`): the I2C bus as a class whose only
  state is a log of transactions. A read fills its buffer with an answer the
  caller supplies, so every property holds for arbitrary device replies.
- `rotary_i2c.dfy` (module `RotaryI2C`): the driver class `RotaryEncoder`
  with the fields `minVal`, `maxVal`, `value` and `devno`; the unset-device
  guard; the write-then-read transaction; `Position` (decode, subtract, jump
  to the opposite bound); `Button`. The bound policy `WrapAround` and the
  position step `NextValue` are pure functions, with lemmas for each case.
- `scenarios.dfy` (module `Scenarios`): client sessions showing what a caller
  observes: two reads in a row, a negative delta, the unset device, and the
  exact bus log of a position read followed by a button read.

The source raises an exception when no device is chosen; the model returns
`Err(NoTargetDevice)` and proves that the bus log is then unchanged.
Where the descriptions of the driver and its code differ, the model follows
the code:
- The positions stay within the bounds after `position()` only when
  `min_val <= max_val`. The code does not check the bounds. With inverted
  bounds, a value below `min_val` still becomes `max_val`.
- A failed `i2c_read` reports the error raised by `i2c_write`. There is no
  error of its own.

## Model

| member | source | states |
|---|---|---|
| Wire.BigEndianValue | rotary_i2c.py:99 | reading n bytes most significant first gives an unsigned number below 256^n |
| Wire.ValueOfBytes | rotary_i2c.py:99 | reading back the n big-endian bytes of any number below 256^n gives that number |
| Wire.BytesOfValue | rotary_i2c.py:99 | the big-endian bytes of the number some bytes read as are those bytes, so no two replies read alike |
| Wire.DecodeInt32 | rotary_i2c.py:99 | the decoded delta lies in [-2^31, 2^31-1] and is negative exactly when the top bit of byte 0 is set |
| Wire.DecodeEncode | rotary_i2c.py:99 | decoding the big-endian two's-complement bytes of any 32-bit integer gives that integer back |
| Wire.EncodeDecode | rotary_i2c.py:99 | every 4-byte reply is the encoding of its decoded value, so the decoding is a bijection onto the 32-bit range |
| Wire.DecodeMinusTwo | rotary_i2c.py:99 | the reply FF FF FF FE decodes to -2 |
| Wire.ButtonPressed | rotary_i2c.py:114 | the button reads as pressed exactly when byte 0 of the reply is even (bit 0 clear, active-low) |
| Wire.ButtonOnlyBitZero | rotary_i2c.py:114 | two replies that agree on bit 0 of byte 0 give the same button state, whatever bytes 1-3 and bits 1-7 hold |
| Wire.ButtonVectors | rotary_i2c.py:110-116 | byte 0 = 00 or FE reads as pressed, 01 as released |
| RotaryI2C.WrapAround | rotary_i2c.py:101-104 | with lo <= hi the result lies in [lo, hi]; a value within the bounds is kept; otherwise the result is one of the bounds |
| RotaryI2C.WrapBelow | rotary_i2c.py:101-102 | a value below min_val, by any amount, becomes exactly max_val |
| RotaryI2C.WrapAbove | rotary_i2c.py:103-104 | a value above max_val (and not below min_val), by any amount, becomes exactly min_val |
| RotaryI2C.WrapKeepsBounds | rotary_i2c.py:101-105 | a value equal to either bound is not moved to the other bound |
| RotaryI2C.NextValue | rotary_i2c.py:99-104 | the new position lies in [min_val, max_val] when min_val <= max_val, and is old value minus the decoded delta when that is within the bounds |
| RotaryI2C.NextValueOfDelta | rotary_i2c.py:96-105 | for a device reporting delta d: below min_val gives max_val, above max_val gives min_val, in range gives value - d |
| RotaryI2C.RotaryEncoder.constructor | rotary_i2c.py:47-63 | bounds, pins, frequency and device as given (defaults 400000, 0, 10, 0); value starts at min_val; a new bus with an empty log |
| RotaryI2C.RotaryEncoder.SetDevice | rotary_i2c.py:70-71 | only devno changes; bounds, value and the bus log stay as they were |
| RotaryI2C.RotaryEncoder.I2CWrite | rotary_i2c.py:74-79 | devno == 0 fails with no bus activity; otherwise one write of the bytes to devno, returning the bus's count |
| RotaryI2C.RotaryEncoder.I2CRead | rotary_i2c.py:86-91 | devno == 0 fails with no bus activity; otherwise a write of the request then a read of dsize bytes from the same devno, returning the device's answer |
| RotaryI2C.RotaryEncoder.Position | rotary_i2c.py:96-105 | on success value becomes NextValue of the old value and the reply, the result equals the stored value, lies in the bounds when min_val <= max_val, bounds and devno unchanged, the bus sees 11 40 then a 4-byte read; with devno == 0 nothing changes |
| RotaryI2C.RotaryEncoder.Button | rotary_i2c.py:110-116 | on success the result is ButtonPressed of the reply and the bus sees 01 04 then a 4-byte read; with devno == 0 it fails with no bus activity |
| Transport.I2CBus.constructor | rotary_i2c.py:62 | the bus records its pins and frequency and starts with an empty log |
| Transport.I2CBus.WriteToDevice | rotary_i2c.py:78 | one write event appended to the log; the count is the length of the data |
| Transport.I2CBus.ReadFromInto | rotary_i2c.py:89-90 | one read event of the buffer's size appended to the log; the buffer holds the device's answer |
| Scenarios.TwoReads | rotary_i2c.py:96-105 | bounds 0..10 from 0, deltas 5 then 8: positions 10 then 2 |
| Scenarios.NegativeDelta | rotary_i2c.py:99-105 | bounds 0..10 at 5, reply FF FF FF FE (delta -2): position 7 |
| Scenarios.UnsetDevice | rotary_i2c.py:75-76 | a driver built with the default devno refuses position and button reads and the bus log stays empty |
| Scenarios.ChosenDevice | rotary_i2c.py:96-116 | after choosing 0x36, a position then a button read put exactly 11 40 / read 4 / 01 04 / read 4 on the bus, and the button result is the evenness of byte 0 |

## Left out

- `scan()` (rotary_i2c.py:66-67): a passthrough to the bus library with no logic of its own.
- The 8 ms settling delay (rotary_i2c.py:88): time is not modelled; the log only records that the write comes before the read.
- The `PimoroniI2C` library and `machine.Pin` set-up (rotary_i2c.py:35-38, 62): the bus is a log of transactions, and the device's answer is a parameter.
- Transport.I2CBus.WriteToDevice: always reports the full length as sent. A short write or a bus exception (NACK, timeout) is not modelled. The driver returns the count unchecked, so `I2CWrite` would pass a short count through unchanged.
- Transport.I2CBus.ReadFromInto: requires the device's answer to have exactly the buffer's length. The real transport always fills the whole buffer or raises.
- RotaryI2C.RotaryEncoder.Position and RotaryI2C.RotaryEncoder.Button: require the device's answer to be 4 bytes, the size they ask for. A reply of another length cannot reach `unpack` or `reply[0]` in the source.
- `VAL_POSITION` (rotary_i2c.py:43) and `clen` (rotary_i2c.py:77): never used by the driver.
- Concurrent use of one driver, or of one bus by several drivers: the driver has no locking.
- Non-integer device addresses: `devno` is an integer here; the source compares it with 0 without checking its type.
