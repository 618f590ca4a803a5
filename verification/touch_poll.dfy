/**
 One cycle of the polling routine (rpi_i2c_ts_poll) as a pure function.

 The register bus is an oracle: the count read either fails or yields a byte,
 and `bus` answers the 4-byte read at each register offset with a point record
 or a failure. The input layer is an output sequence of events. A cycle
 returns the reads it issued, the events it handed over, and the known_ids
 it leaves for the next cycle.

 The id masks known_ids and modified_ids are sets of touch ids here, bit i
 set meaning id i in the set; IdMask shows that the bit operations of the
 source are the set operations used below, and PollDriver runs the cycle on
 the 16-bit masks themselves.

 Poll bounds the point count by the size of the register block; PollAsWritten
 keeps the source's guard, which does not (see PollProperties.AsWrittenOverrunsRegs).
 */
module TouchPoll {
  import opened Registers
  import opened TouchDecode

  /** RPI_TS_NPOINTS_REG_INVALIDATE: the controller's "data not ready" count. */
  const NumPointsInvalidate: nat := 99

  /** The outcome of one regmap_bulk_read: the bytes asked for, or an error. */
  datatype Read<T> = ReadFailed | ReadOk(value: T)

  /** One regmap_bulk_read call: register offset and byte count. */
  datatype Request = Request(offset: nat, length: nat)

  /** The count read, at offsetof(num_points). */
  function CountRequest(): Request {
    Request(NumPointsOffset, NumPointsReadLength)
  }

  /** The read of point i, at offsetof(point[i]). */
  function PointRequest(i: nat): Request {
    Request(PointOffset(i), PointReadLength)
  }

  /**
   What the driver hands the input layer. Activate stands for input_mt_slot,
   input_mt_report_slot_state(MT_TOOL_FINGER, true) and touchscreen_report_pos;
   Release for input_mt_slot and input_mt_report_slot_inactive; MtSyncFrame
   for input_mt_sync_frame; Sync for input_sync, which commits the batch.
   */
  datatype Event =
    | Activate(id: TouchId, x: Coordinate, y: Coordinate)
    | Release(id: TouchId)
    | MtSyncFrame
    | Sync

  /** The bus reads one poll issues, the events it emits, and the known_ids it stores. */
  datatype PollResult = PollResult(busReads: seq<Request>, events: seq<Event>, knownIds: set<TouchId>)

  /** The point reads of one cycle: the touches decoded before the first failing read, and whether one failed. */
  datatype PointScan = PointScan(touches: seq<Touch>, failed: bool)

  /** Every one of the first n point reads succeeds. */
  predicate ReadsSucceed(bus: nat -> Read<RawTouch>, n: nat) {
    forall j :: 0 <= j < n ==> bus(PointOffset(j)).ReadOk?
  }

  /** The touches decoded from the first n point records, when every read succeeds. */
  function Decoded(bus: nat -> Read<RawTouch>, n: nat): (ts: seq<Touch>)
    requires ReadsSucceed(bus, n)
    ensures |ts| == n
  {
    seq(n, j requires 0 <= j < n && ReadsSucceed(bus, n) => DecodeTouch(bus(PointOffset(j)).value))
  }

  /** The ids of a sequence of touches. */
  function Ids(ts: seq<Touch>): set<TouchId> {
    set k | 0 <= k < |ts| :: ts[k].id
  }

  /**
   The point loop's reads: point 0, 1, ... n-1 in order, stopping at the
   first read that fails. The decoded touches are exactly those of the
   records read before that failure.
   */
  function ReadPoints(bus: nat -> Read<RawTouch>, n: nat): (s: PointScan)
    ensures |s.touches| <= n
    ensures s.failed <==> |s.touches| < n
    ensures s.failed ==> bus(PointOffset(|s.touches|)).ReadFailed?
    ensures forall j :: 0 <= j < |s.touches| ==>
      bus(PointOffset(j)).ReadOk? && s.touches[j] == DecodeTouch(bus(PointOffset(j)).value)
  {
    if n == 0 then PointScan([], false)
    else
      var s := ReadPoints(bus, n - 1);
      if s.failed then s
      else
        match bus(PointOffset(n - 1))
        case ReadFailed => PointScan(s.touches, true)
        case ReadOk(raw) => PointScan(s.touches + [DecodeTouch(raw)], false)
  }

  /** The point reads a scan issued: one per decoded touch, plus the one that failed. */
  function PointReads(s: PointScan): (rs: seq<Request>)
    ensures |rs| == |s.touches| + (if s.failed then 1 else 0)
    ensures forall k :: 0 <= k < |rs| ==> rs[k] == PointRequest(k)
  {
    seq(|s.touches| + (if s.failed then 1 else 0), k requires 0 <= k => PointRequest(k))
  }

  function Activation(t: Touch): Event {
    Activate(t.id, t.x, t.y)
  }

  /**
   The slot activations for a sequence of touches, in order: one for each
   touch whose event type is DOWN or CONTACT, none for types 1 and 3.
   */
  function Activations(ts: seq<Touch>): (es: seq<Event>)
    ensures forall e :: e in es ==> e.Activate?
    ensures forall k :: 0 <= k < |ts| && Reports(ts[k]) ==> Activation(ts[k]) in es
    ensures forall e :: e in es ==> exists k :: 0 <= k < |ts| && Reports(ts[k]) && e == Activation(ts[k])
  {
    if ts == [] then []
    else
      var last := ts[|ts| - 1];
      Activations(ts[..|ts| - 1]) + (if Reports(last) then [Activation(last)] else [])
  }

  /**
   modified_ids after the point loop, which sets BIT(touchid) for every
   decoded point whatever its event type: the ids of all decoded touches.
   */
  function Observe(ts: seq<Touch>): (m: set<TouchId>)
    ensures m == Ids(ts)
  {
    if ts == [] then {}
    else
      var init := ts[..|ts| - 1];
      var last := ts[|ts| - 1];
      assert ts == init + [last];
      IdsAppend(init, last);
      Observe(init) + {last.id}
  }

  /** Decoding one more touch adds its id. */
  lemma IdsAppend(ts: seq<Touch>, t: Touch)
    ensures Ids(ts + [t]) == Ids(ts) + {t.id}
  {
    assert forall k :: 0 <= k < |ts| ==> (ts + [t])[k] == ts[k];
    assert (ts + [t])[|ts|] == t;
  }

  /** Every event is a release of an id in [lo, 10) that `released` holds. */
  predicate ReleasesFrom(es: seq<Event>, released: set<TouchId>, lo: nat) {
    forall k :: 0 <= k < |es| ==>
      es[k].Release? && lo <= es[k].id < MaxSupportedPoints && es[k].id in released
  }

  /** The events carry ids in strictly ascending order. */
  predicate AscendingIds(es: seq<Event>)
    requires forall k :: 0 <= k < |es| ==> es[k].Release?
  {
    forall k, l :: 0 <= k < l < |es| ==> es[k].id < es[l].id
  }

  /**
   The releases of the loop over the first ten bits of released_ids
   (for_each_set_bit), from bit i on: a release of each id in [i, 10) that
   `released` holds, in ascending order. Ids 10 to 15 are never visited.
   */
  function ReleaseEvents(released: set<TouchId>, i: nat): seq<Event>
    requires i <= MaxSupportedPoints
    decreases MaxSupportedPoints - i
  {
    if i == MaxSupportedPoints then []
    else if i in released then [Release(i)] + ReleaseEvents(released, i + 1)
    else ReleaseEvents(released, i + 1)
  }

  /**
   What the same loop does to modified_ids from bit i on: it clears bit j for
   each visited j that `released` holds, so exactly the ids in [i, 10) that
   are in `released` leave the set.
   */
  function ReleaseClear(released: set<TouchId>, modified: set<TouchId>, i: nat): (m: set<TouchId>)
    requires i <= MaxSupportedPoints
    ensures forall j: TouchId :: j in m <==> j in modified && !(i <= j < MaxSupportedPoints && j in released)
    decreases MaxSupportedPoints - i
  {
    if i == MaxSupportedPoints then modified
    else ReleaseClear(released, if i in released then modified - {i} else modified, i + 1)
  }

  /** The loop from bit i on releases only ids in [i, 10) that `released` holds. */
  lemma {:induction false} ReleaseEventsSound(released: set<TouchId>, i: nat)
    requires i <= MaxSupportedPoints
    ensures ReleasesFrom(ReleaseEvents(released, i), released, i)
    decreases MaxSupportedPoints - i
  {
    if i < MaxSupportedPoints {
      ReleaseEventsSound(released, i + 1);
      if i in released {
        var rest := ReleaseEvents(released, i + 1);
        var es := [Release(i)] + rest;
        assert forall k :: 0 < k < |es| ==> es[k] == rest[k - 1];
      }
    }
  }

  /** The loop from bit i on releases ids in strictly ascending order. */
  lemma {:induction false} ReleaseEventsAscending(released: set<TouchId>, i: nat)
    requires i <= MaxSupportedPoints
    ensures ReleasesFrom(ReleaseEvents(released, i), released, i)
    ensures AscendingIds(ReleaseEvents(released, i))
    decreases MaxSupportedPoints - i
  {
    ReleaseEventsSound(released, i);
    if i < MaxSupportedPoints {
      ReleaseEventsAscending(released, i + 1);
      if i in released {
        var rest := ReleaseEvents(released, i + 1);
        var es := [Release(i)] + rest;
        assert forall k :: 0 < k < |es| ==> es[k] == rest[k - 1] && i < es[k].id;
      }
    }
  }

  /** The loop from bit i on releases every id in [i, 10) that `released` holds. */
  lemma {:induction false} ReleaseEventsComplete(released: set<TouchId>, i: nat)
    requires i <= MaxSupportedPoints
    ensures forall j: TouchId :: i <= j < MaxSupportedPoints && j in released ==>
      Release(j) in ReleaseEvents(released, i)
    decreases MaxSupportedPoints - i
  {
    if i < MaxSupportedPoints {
      ReleaseEventsComplete(released, i + 1);
      var rest := ReleaseEvents(released, i + 1);
      if i in released {
        var es := ReleaseEvents(released, i);
        assert es == [Release(i)] + rest;
        forall j: TouchId | i <= j < MaxSupportedPoints && j in released
          ensures Release(j) in es
        {
          if j == i {
            assert es[0] == Release(i);
          } else {
            assert Release(j) in rest;
          }
        }
      }
    }
  }

  /**
   The releases of the loop from bit i on: one for each id in [i, 10) that
   `released` holds, and nothing else, in strictly ascending id order.
   */
  lemma ReleaseEventsExactly(released: set<TouchId>, i: nat)
    requires i <= MaxSupportedPoints
    ensures ReleasesFrom(ReleaseEvents(released, i), released, i)
    ensures AscendingIds(ReleaseEvents(released, i))
    ensures forall j: TouchId :: i <= j < MaxSupportedPoints && j in released ==>
      Release(j) in ReleaseEvents(released, i)
  {
    ReleaseEventsAscending(released, i);
    ReleaseEventsComplete(released, i);
  }

  /** The cycle after the count check: read and decode n points, then release and sync. */
  function Cycle(known: set<TouchId>, n: nat, bus: nat -> Read<RawTouch>): (r: PollResult)
    ensures 1 <= |r.busReads| <= n + 1 && r.busReads[0] == CountRequest()
    ensures forall k :: 1 <= k < |r.busReads| ==> r.busReads[k] == PointRequest(k - 1)
  {
    var s := ReadPoints(bus, n);
    var busReads := [CountRequest()] + PointReads(s);
    var activations := Activations(s.touches);
    if s.failed then
      PollResult(busReads, activations, known)
    else
      var observed := Observe(s.touches);
      var released := known - observed;
      PollResult(busReads, activations + ReleaseEvents(released, 0) + [MtSyncFrame, Sync],
                 ReleaseClear(released, observed, 0))
  }

  /** A poll that returns after the count read: nothing emitted, known_ids kept. */
  function Idle(known: set<TouchId>): PollResult {
    PollResult([CountRequest()], [], known)
  }

  /** The source's early return: the invalidate sentinel, or no points and no known touches. */
  predicate SkipsAsWritten(count: nat, known: set<TouchId>) {
    count == NumPointsInvalidate || (count == 0 && known == {})
  }

  /**
   rpi_i2c_ts_poll as the source has it: any count but the sentinel runs the
   point loop. For a count above ten the source's writes past regs are
   undefined behaviour; this gives the reads issued as if they harmed nothing.
   */
  function PollAsWritten(known: set<TouchId>, countRead: Read<Byte>, bus: nat -> Read<RawTouch>): (r: PollResult)
    ensures 1 <= |r.busReads| && r.busReads[0] == CountRequest()
    ensures forall k :: 1 <= k < |r.busReads| ==> r.busReads[k] == PointRequest(k - 1)
    ensures countRead.ReadOk? ==> |r.busReads| <= countRead.value + 1
    ensures countRead.ReadFailed? ==> r == Idle(known)
    ensures countRead.ReadOk? && SkipsAsWritten(countRead.value, known) ==> r == Idle(known)
  {
    match countRead
    case ReadFailed => Idle(known)
    case ReadOk(n) =>
      if SkipsAsWritten(n, known) then Idle(known) else Cycle(known, n, bus)
  }

  /**
   rpi_i2c_ts_poll with the point count bounded by the register block: a
   count above ten is treated like the invalidate sentinel. Every read stays
   inside struct rpi_ts_regs.
   */
  function Poll(known: set<TouchId>, countRead: Read<Byte>, bus: nat -> Read<RawTouch>): (r: PollResult)
    ensures 1 <= |r.busReads| && r.busReads[0] == CountRequest()
    ensures forall q :: q in r.busReads ==> q.offset + q.length <= RegsSize
    ensures countRead.ReadFailed? ==> r == Idle(known)
    ensures countRead.ReadOk? && SkipsAsWritten(countRead.value, known) ==> r == Idle(known)
    ensures countRead.ReadOk? && countRead.value > MaxSupportedPoints ==> r == Idle(known)
  {
    if countRead.ReadOk? && countRead.value > MaxSupportedPoints then
      Idle(known)
    else
      var r := PollAsWritten(known, countRead, bus);
      assert forall q :: q in r.busReads ==> q.offset + q.length <= RegsSize by {
        forall q | q in r.busReads ensures q.offset + q.length <= RegsSize {
          var k :| 0 <= k < |r.busReads| && r.busReads[k] == q;
          if k > 0 {
            assert q == PointRequest(k - 1) && k - 1 < MaxSupportedPoints;
          }
        }
      }
      r
  }
}
