/**
 * The wire protocol of the I2C rotary encoder (Adafruit seesaw firmware):
 * the command bytes the driver sends, and how it reads the 4-byte replies.
 * Everything here is a pure function of bytes.
 */
module Wire {

  /** Register module and function bytes of the two requests the driver makes. */
  const CmdReadValPos: bv8 := 0x11   // encoder module
  const CmdReadButtons: bv8 := 0x01  // GPIO module
  const CmdReadNumber: bv8 := 0x04   // GPIO bulk read
  const ValDelta: bv8 := 0x40        // encoder delta since the last read

  /** The request for the encoder delta, and the request for the button word. */
  const PositionRequest: seq<bv8> := [CmdReadValPos, ValDelta]
  const ButtonRequest: seq<bv8> := [CmdReadButtons, CmdReadNumber]

  /** Both requests are answered with exactly this many bytes. */
  const ReplySize: nat := 4

  const TwoTo31: int := 0x8000_0000
  const TwoTo32: int := 0x1_0000_0000

  /** The 32-bit range of a signed `long` as packed by the format ">l". */
  predicate IsInt32(x: int) {
    -TwoTo31 <= x < TwoTo31
  }

  /** 256 to the power n: one more than the largest number n bytes can hold. */
  function Pow256(n: nat): (p: int)
    ensures p >= 1
  {
    if n == 0 then 1 else 256 * Pow256(n - 1)
  }

  /**
   * The bytes read as an unsigned number, most significant first: each
   * further byte shifts what came before up by eight bits.
   */
  function BigEndianValue(b: seq<bv8>): (u: int)
    ensures 0 <= u < Pow256(|b|)
  {
    if b == [] then 0 else BigEndianValue(b[..|b| - 1]) * 256 + b[|b| - 1] as int
  }

  /** The n bytes, most significant first, that spell an unsigned number u. */
  function BigEndianBytes(u: int, n: nat): (b: seq<bv8>)
    requires 0 <= u < Pow256(n)
    ensures |b| == n
  {
    if n == 0 then [] else BigEndianBytes(u / 256, n - 1) + [(u % 256) as bv8]
  }

  /** Reading back the bytes of a number gives the number. */
  lemma {:induction false} ValueOfBytes(u: int, n: nat)
    requires 0 <= u < Pow256(n)
    ensures BigEndianValue(BigEndianBytes(u, n)) == u
  {
    if n > 0 {
      var b := BigEndianBytes(u, n);
      ValueOfBytes(u / 256, n - 1);
      assert b[..n - 1] == BigEndianBytes(u / 256, n - 1);
      ByteToInt(u % 256);
    }
  }

  /** Spelling out the number that some bytes read as gives those bytes. */
  lemma {:induction false} BytesOfValue(b: seq<bv8>)
    ensures BigEndianBytes(BigEndianValue(b), |b|) == b
  {
    if b != [] {
      var n := |b|;
      var init, last := b[..n - 1], b[n - 1];
      var v, u := BigEndianValue(init), BigEndianValue(b);
      assert u == v * 256 + last as int;
      ByteStep(v, last as int);
      assert BigEndianBytes(u, n) == BigEndianBytes(v, n - 1) + [(last as int) as bv8];
      BytesOfValue(init);
      IntToByte(last);
      assert b == init + [last];
    }
  }

  /** The value of four bytes, written out digit by digit. */
  lemma FourBytes(b: seq<bv8>)
    requires |b| == 4
    ensures BigEndianValue(b) == ((b[0] as int * 256 + b[1] as int) * 256 + b[2] as int) * 256 + b[3] as int
  {
    assert b[..3][..2] == b[..2] && b[..2][..1] == b[..1] && b[..1][..0] == [];
    assert BigEndianValue(b[..1]) == b[0] as int;
    assert BigEndianValue(b[..2]) == b[0] as int * 256 + b[1] as int;
    assert BigEndianValue(b[..3]) == (b[0] as int * 256 + b[1] as int) * 256 + b[2] as int;
  }

  /**
   * The signed big-endian decoding of a 4-byte reply: the unsigned value,
   * read as two's complement (a set top bit means the value minus 2^32).
   */
  function DecodeInt32(b: seq<bv8>): (d: int)
    requires |b| == 4
    ensures IsInt32(d)
    ensures d < 0 <==> b[0] as int >= 0x80
  {
    FourBytes(b);
    var u := BigEndianValue(b);
    if u >= TwoTo31 then u - TwoTo32 else u
  }

  /**
   * The reference encoder of a 32-bit signed integer, most significant
   * byte first, two's complement: what the peripheral puts on the wire.
   */
  function EncodeInt32(x: int): (b: seq<bv8>)
    requires IsInt32(x)
    ensures |b| == 4
  {
    assert Pow256(4) == TwoTo32;
    BigEndianBytes(if x < 0 then x + TwoTo32 else x, 4)
  }

  /** Decoding undoes encoding: every 32-bit integer survives the wire. */
  lemma DecodeEncode(x: int)
    requires IsInt32(x)
    ensures DecodeInt32(EncodeInt32(x)) == x
  {
    assert Pow256(4) == TwoTo32;
    ValueOfBytes(if x < 0 then x + TwoTo32 else x, 4);
  }

  /** Encoding undoes decoding: every 4-byte reply is the image of its value. */
  lemma EncodeDecode(b: seq<bv8>)
    requires |b| == 4
    ensures EncodeInt32(DecodeInt32(b)) == b
  {
    var x := DecodeInt32(b);
    FourBytes(b);
    assert (if x < 0 then x + TwoTo32 else x) == BigEndianValue(b);
    BytesOfValue(b);
  }

  /** Splitting off the low byte of `hi * 256 + lo`. */
  lemma ByteStep(hi: int, lo: int)
    requires 0 <= lo < 256
    ensures (hi * 256 + lo) / 256 == hi
    ensures (hi * 256 + lo) % 256 == lo
  {
  }

  /** A number below 256 survives the trip through a byte. */
  lemma ByteToInt(n: int)
    requires 0 <= n < 256
    ensures (n as bv8) as int == n
  {
  }

  /** A byte survives the trip through its number. */
  lemma IntToByte(b: bv8)
    ensures (b as int) as bv8 == b
  {
  }

  /** The fixed vector of the decoder: FF FF FF FE is minus two. */
  lemma DecodeMinusTwo()
    ensures DecodeInt32([0xFF, 0xFF, 0xFF, 0xFE]) == -2
  {
    FourBytes([0xFF, 0xFF, 0xFF, 0xFE]);
  }

  /**
   * The button word is pressed when bit 0 of its first byte is clear
   * (the input is active-low): an even first byte.
   */
  function ButtonPressed(reply: seq<bv8>): (pressed: bool)
    requires |reply| == 4
    ensures pressed <==> reply[0] as int % 2 == 0
  {
    reply[0] & 0x01 == 0
  }

  /** Only bit 0 of byte 0 matters: bytes 1 to 3 and bits 1 to 7 are ignored. */
  lemma ButtonOnlyBitZero(a: seq<bv8>, b: seq<bv8>)
    requires |a| == 4 && |b| == 4
    requires a[0] & 0x01 == b[0] & 0x01
    ensures ButtonPressed(a) == ButtonPressed(b)
  {
  }

  /** The fixed vectors of the button decoder: 00 and FE are pressed, 01 is not. */
  lemma ButtonVectors(b1: bv8, b2: bv8, b3: bv8)
    ensures ButtonPressed([0x00, b1, b2, b3])
    ensures ButtonPressed([0xFE, b1, b2, b3])
    ensures !ButtonPressed([0x01, b1, b2, b3])
  {
  }
}
