/**
 The register block of the touch controller (`struct rpi_ts_regs`), written out
 as explicit byte offsets. The block is a device-mode byte, a gesture-id byte,
 the point count, and ten 6-byte point records. A poll reads the count (one
 byte at offset 2) and the first four bytes of each point record it needs;
 the pressure and area bytes are part of the layout but never read.
 */
module Registers {

  datatype Option<T> = None | Some(value: T)

  /** A register byte read as an unsigned number (u8). */
  type Byte = b: nat | b < 256

  /** Number of point records in the block (RPI_TS_MAX_SUPPORTED_POINTS). */
  const MaxSupportedPoints: nat := 10

  const DeviceModeOffset: nat := 0
  const GestureIdOffset: nat := 1
  const NumPointsOffset: nat := 2
  const PointsOffset: nat := 3

  /** Bytes per point record: xh, xl, yh, yl, pressure, area. */
  const PointRecordSize: nat := 6

  /** Bytes a poll reads for the point count and for one point record. */
  const NumPointsReadLength: nat := 1
  const PointReadLength: nat := 4

  /** sizeof(struct rpi_ts_regs): every field is a byte, so there is no padding. */
  const RegsSize: nat := PointsOffset + PointRecordSize * MaxSupportedPoints

  datatype PointField = Xh | Xl | Yh | Yl | Pressure | Area

  datatype Field = DeviceMode | GestureId | NumPoints | Point(index: nat, field: PointField)

  /** A field that exists in the block: point records are indexed 0..9. */
  predicate ValidField(f: Field) {
    f.Point? ==> f.index < MaxSupportedPoints
  }

  /** Position of a field inside its point record. */
  function PointFieldOffset(pf: PointField): nat {
    match pf
    case Xh => 0
    case Xl => 1
    case Yh => 2
    case Yl => 3
    case Pressure => 4
    case Area => 5
  }

  /** The point field stored at a position inside a record. */
  function PointFieldAt(k: nat): (pf: PointField)
    requires k < PointRecordSize
    ensures PointFieldOffset(pf) == k
  {
    if k == 0 then Xh
    else if k == 1 then Xl
    else if k == 2 then Yh
    else if k == 3 then Yl
    else if k == 4 then Pressure
    else Area
  }

  /** offsetof(struct rpi_ts_regs, point[i]); defined for every i, in bounds or not. */
  function PointOffset(i: nat): nat {
    PointsOffset + PointRecordSize * i
  }

  function FieldOffset(f: Field): nat {
    match f
    case DeviceMode => DeviceModeOffset
    case GestureId => GestureIdOffset
    case NumPoints => NumPointsOffset
    case Point(i, pf) => PointOffset(i) + PointFieldOffset(pf)
  }

  /** The field stored at a byte offset of the block, or None past its end. */
  function FieldAt(offset: nat): (f: Option<Field>)
    ensures f.Some? <==> offset < RegsSize
    ensures f.Some? ==> ValidField(f.value) && FieldOffset(f.value) == offset
  {
    if offset == DeviceModeOffset then Some(DeviceMode)
    else if offset == GestureIdOffset then Some(GestureId)
    else if offset == NumPointsOffset then Some(NumPoints)
    else if offset < RegsSize then
      var i := (offset - PointsOffset) / PointRecordSize;
      var k := (offset - PointsOffset) % PointRecordSize;
      Some(Point(i, PointFieldAt(k)))
    else None
  }

  /** Every field of the block sits at a distinct offset inside it, and FieldAt finds it there. */
  lemma FieldAtFieldOffset(f: Field)
    requires ValidField(f)
    ensures FieldOffset(f) < RegsSize
    ensures FieldAt(FieldOffset(f)) == Some(f)
  {
    if f.Point? {
      var o := FieldOffset(f);
      var k := PointFieldOffset(f.field);
      assert o - PointsOffset == PointRecordSize * f.index + k;
      assert (o - PointsOffset) / PointRecordSize == f.index;
      assert (o - PointsOffset) % PointRecordSize == k;
      match f.field
      case Xh =>
      case Xl =>
      case Yh =>
      case Yl =>
      case Pressure =>
      case Area =>
    }
  }

  /** The count read covers exactly the num_points byte. */
  lemma NumPointsReadCoversCount()
    ensures FieldAt(NumPointsOffset) == Some(NumPoints)
    ensures NumPointsOffset + NumPointsReadLength <= RegsSize
  {
  }

  /**
   A 4-byte read at point i's offset covers xh, xl, yh and yl of record i, in
   that order, and no pressure or area byte; it stays inside the block exactly
   when i names one of its ten records.
   */
  lemma PointReadCoversCoordinates(i: nat)
    ensures PointOffset(i) + PointReadLength <= RegsSize <==> i < MaxSupportedPoints
    ensures i < MaxSupportedPoints ==>
      && FieldAt(PointOffset(i)) == Some(Point(i, Xh))
      && FieldAt(PointOffset(i) + 1) == Some(Point(i, Xl))
      && FieldAt(PointOffset(i) + 2) == Some(Point(i, Yh))
      && FieldAt(PointOffset(i) + 3) == Some(Point(i, Yl))
  {
    if i < MaxSupportedPoints {
      FieldAtFieldOffset(Point(i, Xh));
      FieldAtFieldOffset(Point(i, Xl));
      FieldAtFieldOffset(Point(i, Yh));
      FieldAtFieldOffset(Point(i, Yl));
    }
  }
}
