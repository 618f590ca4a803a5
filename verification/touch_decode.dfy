/**
 Decoding of one point record. The controller packs a 12-bit x and y, a 4-bit
 touch id and a 2-bit event type into the bytes xh, xl, yh, yl:

   xh = event_type:2 | unused:2 | x[11..8]:4     xl = x[7..0]
   yh = touch_id:4   | y[11..8]:4                yl = y[7..0]

 The bytes are numbers 0..255 here and DecodeTouch splits them with division
 and remainder; DecodeMatchesSource shows that this is what the source's
 masks and shifts compute. EncodeTouch packs a decoded touch back into those
 bytes; the round-trip lemmas show that decoding loses exactly the two unused
 bits of xh.
 */
module TouchDecode {
  import opened Registers

  /** The four bytes of a point record that a poll reads. */
  datatype RawTouch = RawTouch(xh: Byte, xl: Byte, yh: Byte, yl: Byte)

  type Coordinate = c: nat | c < 4096
  type TouchId = i: nat | i < 16
  type EventType = e: nat | e < 4

  /** RPI_TS_FTS_TOUCH_DOWN and RPI_TS_FTS_TOUCH_CONTACT; codes 1 and 3 are not acted on. */
  const TouchDown: EventType := 0
  const TouchContact: EventType := 2

  /** One decoded point: raw coordinates, the controller's contact id, and the event code. */
  datatype Touch = Touch(x: Coordinate, y: Coordinate, id: TouchId, eventType: EventType)

  /** Whether a point is reported to the input layer as an active finger. */
  predicate Reports(t: Touch) {
    t.eventType == TouchDown || t.eventType == TouchContact
  }

  /** A 12-bit coordinate: the low nibble of the high byte above the low byte. */
  function Coord(hi: Byte, lo: Byte): (c: Coordinate)
    ensures c / 256 == hi % 16 && c % 256 == lo
  {
    (hi % 16) * 256 + lo
  }

  /**
   The fields of a point record: x from the low nibble of xh and xl, y from
   the low nibble of yh and yl, the touch id from the high nibble of yh, the
   event type from the top two bits of xh. Bits 4 and 5 of xh are not used.
   */
  function DecodeTouch(raw: RawTouch): (t: Touch)
    ensures t.x / 256 == raw.xh % 16 && t.x % 256 == raw.xl
    ensures t.y / 256 == raw.yh % 16 && t.y % 256 == raw.yl
    ensures t.id * 16 <= raw.yh < t.id * 16 + 16
    ensures t.eventType * 64 <= raw.xh < t.eventType * 64 + 64
  {
    Touch(Coord(raw.xh, raw.xl), Coord(raw.yh, raw.yl), raw.yh / 16, raw.xh / 64)
  }

  // The source's expressions, on the bytes as bit-vectors. The source works
  // in a 32-bit int; every intermediate value is below 2^12, so bv32 holds
  // them all without wrap-around. Each lemma is about one shape, so that the
  // solver never mixes bit-vector and integer reasoning in a large goal.

  lemma LowNibble(b: bv8)
    ensures (b as bv32 & 0xF) as int == b as int % 16
  {
  }

  lemma WidenByte(b: bv8)
    ensures (b as bv32) as int == b as int
  {
  }

  /** A nibble shifted above a byte: the sum has no carries, so it is the bitwise or. */
  lemma NibbleOverByte(h: bv32, l: bv32)
    requires h < 16 && l < 256
    ensures (h << 8) + l == (h << 8) | l
    ensures ((h << 8) + l) as int == h as int * 256 + l as int
  {
  }

  /**
   `((xh & 0xf) << 8) + xl` is the coordinate Coord computes, and the `+`
   in it could as well be `|`.
   */
  lemma SourceCoord(hi: bv8, lo: bv8)
    ensures ((hi as bv32 & 0xF) << 8) + lo as bv32 == ((hi as bv32 & 0xF) << 8) | lo as bv32
    ensures (((hi as bv32 & 0xF) << 8) + lo as bv32) as int == Coord(hi as int, lo as int)
  {
    var h := hi as bv32 & 0xF;
    var l := lo as bv32;
    assert h as int == hi as int % 16 by {
      LowNibble(hi);
    }
    assert l as int == lo as int by {
      WidenByte(lo);
    }
    assert h < 16 && l < 256;
    NibbleOverByte(h, l);
  }

  /** `(yh >> 4) & 0xf` is the high nibble. */
  lemma SourceTouchId(yh: bv8)
    ensures ((yh >> 4) & 0xF) as int == yh as int / 16
  {
  }

  /** `(xh >> 6) & 0x03` is the top two bits. */
  lemma SourceEventType(xh: bv8)
    ensures ((xh >> 6) & 0x3) as int == xh as int / 64
  {
  }

  /** DecodeTouch computes the four expressions of the source's point loop. */
  lemma DecodeMatchesSource(xh: bv8, xl: bv8, yh: bv8, yl: bv8)
    ensures var t := DecodeTouch(RawTouch(xh as int, xl as int, yh as int, yl as int));
      && t.x == (((xh as bv32 & 0xF) << 8) + xl as bv32) as int
      && t.y == (((yh as bv32 & 0xF) << 8) + yl as bv32) as int
      && t.id == ((yh >> 4) & 0xF) as int
      && t.eventType == ((xh >> 6) & 0x3) as int
  {
    SourceCoord(xh, xl);
    SourceCoord(yh, yl);
    SourceTouchId(yh);
    SourceEventType(xh);
  }

  /** The point record a controller writes for a touch, with the unused bits of xh clear. */
  function EncodeTouch(t: Touch): RawTouch {
    RawTouch(t.eventType * 64 + t.x / 256, t.x % 256, t.id * 16 + t.y / 256, t.y % 256)
  }

  /** Every touch survives encoding and decoding. */
  lemma DecodeEncode(t: Touch)
    ensures DecodeTouch(EncodeTouch(t)) == t
  {
    var raw := EncodeTouch(t);
    assert raw.xh / 64 == t.eventType && raw.xh % 16 == t.x / 256;
    assert raw.yh / 16 == t.id && raw.yh % 16 == t.y / 256;
  }

  /** xh with bits 4 and 5, which decoding ignores, cleared. */
  function UsedBits(b: Byte): (c: Byte)
    ensures c / 64 == b / 64 && c % 16 == b % 16 && c / 16 % 4 == 0
  {
    b / 64 * 64 + b % 16
  }

  lemma MaskUsedBits(b: bv8)
    ensures b & 0xCF == ((b >> 6) << 6) + (b & 0xF)
  {
  }

  lemma TwoBitsOverNibble(e: bv8, n: bv8)
    requires e < 4 && n < 16
    ensures ((e << 6) + n) as int == e as int * 64 + n as int
  {
  }

  lemma ByteTopBits(b: bv8)
    ensures (b >> 6) as int == b as int / 64
  {
  }

  lemma ByteLowNibble(b: bv8)
    ensures (b & 0xF) as int == b as int % 16
  {
  }

  /** UsedBits is the mask `xh & 0xcf`. */
  lemma UsedBitsMask(b: bv8)
    ensures (b & 0xCF) as int == UsedBits(b as int)
  {
    MaskUsedBits(b);
    ByteTopBits(b);
    ByteLowNibble(b);
    assert b >> 6 < 4 && b & 0xF < 16;
    TwoBitsOverNibble(b >> 6, b & 0xF);
  }

  /** Decoding then encoding a record restores it, except bits 4 and 5 of xh, which come back clear. */
  lemma EncodeDecode(raw: RawTouch)
    ensures EncodeTouch(DecodeTouch(raw)) == raw.(xh := UsedBits(raw.xh))
  {
    var t := DecodeTouch(raw);
    assert t.x / 256 == raw.xh % 16 && t.x % 256 == raw.xl;
    assert t.y / 256 == raw.yh % 16 && t.y % 256 == raw.yl;
  }
}
