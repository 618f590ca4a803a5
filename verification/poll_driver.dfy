/**
 The corrected polling routine (the source with the count bound of
 TouchPoll.Poll) statement by statement: the count read and its early
 returns, the loop over the point records, then for_each_set_bit over the
 first ten bits of released_ids. The masks are 16 bits wide, which holds
 every value the source's int and long masks take, since every bit set is
 BIT(touchid) with touchid below 16. It is proved to compute what
 TouchPoll.Poll describes.
 */
module PollDriver {
  import opened Registers
  import opened TouchDecode
  import opened IdMask
  import opened TouchPoll
  import opened PollProperties

  /** Once a point read has failed, later indices add nothing: the scan is over. */
  lemma {:induction false} ScanStaysFailed(bus: nat -> Read<RawTouch>, m: nat, n: nat)
    requires m <= n && ReadPoints(bus, m).failed
    ensures ReadPoints(bus, n) == ReadPoints(bus, m)
    decreases n - m
  {
    if m < n {
      ScanStaysFailed(bus, m, n - 1);
    }
  }

  /** One more point read extends the scan: with the record it decodes, or as failed. */
  lemma ScanStep(bus: nat -> Read<RawTouch>, i: nat, touches: seq<Touch>)
    requires ReadPoints(bus, i) == PointScan(touches, false)
    ensures bus(PointOffset(i)).ReadFailed? ==> ReadPoints(bus, i + 1) == PointScan(touches, true)
    ensures bus(PointOffset(i)).ReadOk? ==>
      ReadPoints(bus, i + 1) == PointScan(touches + [DecodeTouch(bus(PointOffset(i)).value)], false)
    ensures PointReads(PointScan(touches, false)) + [PointRequest(i)] == PointReads(PointScan(touches, true))
    ensures bus(PointOffset(i)).ReadOk? ==>
      PointReads(PointScan(touches + [DecodeTouch(bus(PointOffset(i)).value)], false)) == PointReads(PointScan(touches, true))
  {
  }

  /**
   The body of the point loop for a record that was read: decode it, set
   BIT(touchid) in modified_ids, and activate its slot when its event type
   is DOWN or CONTACT.
   */
  method RecordPoint(raw: RawTouch, ghost touches: seq<Touch>, events: seq<Event>, modifiedIds: bv16)
    returns (t: Touch, newEvents: seq<Event>, newModified: bv16)
    requires events == Activations(touches) && IdSet(modifiedIds) == Ids(touches)
    ensures t == DecodeTouch(raw)
    ensures newEvents == Activations(touches + [t])
    ensures IdSet(newModified) == Ids(touches + [t])
  {
    t := DecodeTouch(raw);
    IdSetWithBit(modifiedIds, t.id);
    newModified := modifiedIds | Bit(t.id);
    newEvents := events;
    if t.eventType == TouchDown || t.eventType == TouchContact {
      newEvents := newEvents + [Activate(t.id, t.x, t.y)];
    }
    assert (touches + [t])[..|touches|] == touches;
    IdsAppend(touches, t);
  }

  /**
   One iteration of the point loop: issue the read of point i, then either
   stop on its failure or record the point it returns.
   */
  method ScanPoint(bus: nat -> Read<RawTouch>, i: nat, pointReads: seq<Request>, events: seq<Event>, modifiedIds: bv16)
    returns (newReads: seq<Request>, newEvents: seq<Event>, newModified: bv16, failed: bool)
    requires !ReadPoints(bus, i).failed
    requires pointReads == PointReads(ReadPoints(bus, i))
    requires events == Activations(ReadPoints(bus, i).touches)
    requires IdSet(modifiedIds) == Ids(ReadPoints(bus, i).touches)
    ensures failed == ReadPoints(bus, i + 1).failed
    ensures newReads == PointReads(ReadPoints(bus, i + 1))
    ensures newEvents == Activations(ReadPoints(bus, i + 1).touches)
    ensures IdSet(newModified) == Ids(ReadPoints(bus, i + 1).touches)
  {
    ghost var touches := ReadPoints(bus, i).touches;
    var read := bus(PointOffset(i));
    ScanStep(bus, i, touches);
    newReads := pointReads + [PointRequest(i)];
    if read.ReadFailed? {
      failed := true;
      newEvents := events;
      newModified := modifiedIds;
    } else {
      failed := false;
      var t;
      t, newEvents, newModified := RecordPoint(read.value, touches, events, modifiedIds);
    }
  }

  /**
   The point loop on the masks: point reads 0, 1, ... in order until one
   fails, an activation for each DOWN or CONTACT record, and BIT(touchid)
   set in modified_ids for every decoded record.
   */
  method ScanPoints(bus: nat -> Read<RawTouch>, numPoints: nat)
    returns (pointReads: seq<Request>, events: seq<Event>, modifiedIds: bv16, failed: bool)
    ensures failed == ReadPoints(bus, numPoints).failed
    ensures pointReads == PointReads(ReadPoints(bus, numPoints))
    ensures events == Activations(ReadPoints(bus, numPoints).touches)
    ensures IdSet(modifiedIds) == Ids(ReadPoints(bus, numPoints).touches)
  {
    pointReads := [];
    events := [];
    modifiedIds := 0;
    failed := false;
    IdSetEmpty(0);
    var i := 0;
    while i < numPoints && !failed
      invariant 0 <= i <= numPoints
      invariant failed == ReadPoints(bus, i).failed
      invariant pointReads == PointReads(ReadPoints(bus, i))
      invariant events == Activations(ReadPoints(bus, i).touches)
      invariant IdSet(modifiedIds) == Ids(ReadPoints(bus, i).touches)
    {
      pointReads, events, modifiedIds, failed := ScanPoint(bus, i, pointReads, events, modifiedIds);
      i := i + 1;
    }
    if failed {
      ScanStaysFailed(bus, i, numPoints);
    }
  }

  /** The releases of the ids below j that were released, in ascending order: what the loop has emitted after bit j - 1. */
  ghost function ReleasesBelow(released: set<TouchId>, j: nat): seq<Event>
    requires j <= MaxSupportedPoints
  {
    if j == 0 then []
    else ReleasesBelow(released, j - 1) + (if j - 1 in released then [Release(j - 1)] else [])
  }

  /** The releases below j followed by those from j on are all the releases. */
  lemma {:induction false} ReleasesSplit(released: set<TouchId>, j: nat)
    requires j <= MaxSupportedPoints
    ensures ReleasesBelow(released, j) + ReleaseEvents(released, j) == ReleaseEvents(released, 0)
    decreases j
  {
    if j > 0 {
      ReleasesSplit(released, j - 1);
      var below := ReleasesBelow(released, j - 1);
      var step := if j - 1 in released then [Release(j - 1)] else [];
      var rest := ReleaseEvents(released, j);
      assert ReleasesBelow(released, j) == below + step;
      assert ReleaseEvents(released, j - 1) == step + rest;
      AppendAssoc(below, step, rest);
    }
  }

  lemma AppendAssoc<T>(a: seq<T>, b: seq<T>, c: seq<T>)
    ensures (a + b) + c == a + (b + c)
  {
  }

  /**
   for_each_set_bit over the first ten bits of released_ids: a release for
   each set bit in ascending order, clearing that bit in modified_ids.
   */
  method ReleaseBits(releasedIds: bv16, modifiedIds: bv16) returns (events: seq<Event>, newModified: bv16)
    ensures events == ReleaseEvents(IdSet(releasedIds), 0)
    ensures IdSet(newModified) == ReleaseClear(IdSet(releasedIds), IdSet(modifiedIds), 0)
  {
    ghost var released := IdSet(releasedIds);
    events := [];
    newModified := modifiedIds;
    var j := 0;
    while j < MaxSupportedPoints
      invariant 0 <= j <= MaxSupportedPoints
      invariant events == ReleasesBelow(released, j)
      invariant ReleaseClear(released, IdSet(newModified), j) == ReleaseClear(released, IdSet(modifiedIds), 0)
    {
      if Has(releasedIds, j) {
        assert j in released;
        IdSetClearBit(newModified, j);
        events := events + [Release(j)];
        newModified := newModified & !Bit(j);
      } else {
        assert j !in released;
      }
      j := j + 1;
    }
    ReleasesSplit(released, MaxSupportedPoints);
  }

  /**
   The clear at line 105 on the masks themselves: released_ids is
   known_ids & ~modified_ids, so whatever mask the release loop leaves holds
   the same ids as modified_ids and is therefore modified_ids, bit for bit.
   */
  lemma ClearingIsNoOpOnMasks(knownIds: bv16, modifiedIds: bv16, newModified: bv16)
    requires IdSet(newModified) == ReleaseClear(IdSet(knownIds & !modifiedIds), IdSet(modifiedIds), 0)
    ensures newModified == modifiedIds
  {
    IdSetAndNot(knownIds, modifiedIds);
    ReleaseClearingIsNoOp(IdSet(knownIds), IdSet(modifiedIds));
    IdSetInjective(newModified, modifiedIds);
  }

  /**
   One poll on the masks themselves, with Poll's bound on the count added to
   the source's early return. The reads and events are those of Poll
   for the ids knownIds holds, the new mask holds Poll's new ids, and a
   cycle that does not reach the final sync leaves the mask untouched.
   */
  method RunPoll(knownIds: bv16, countRead: Read<Byte>, bus: nat -> Read<RawTouch>)
    returns (busReads: seq<Request>, events: seq<Event>, newKnownIds: bv16)
    ensures busReads == Poll(IdSet(knownIds), countRead, bus).busReads
    ensures events == Poll(IdSet(knownIds), countRead, bus).events
    ensures IdSet(newKnownIds) == Poll(IdSet(knownIds), countRead, bus).knownIds
    ensures Sync !in events ==> newKnownIds == knownIds
  {
    busReads := [CountRequest()];
    events := [];
    newKnownIds := knownIds;
    if countRead.ReadFailed? {
      return;
    }
    var numPoints := countRead.value;
    IdSetEmpty(knownIds);
    if numPoints > MaxSupportedPoints || numPoints == NumPointsInvalidate || (numPoints == 0 && knownIds == 0) {
      return;
    }
    assert Poll(IdSet(knownIds), countRead, bus) == Cycle(IdSet(knownIds), numPoints, bus);

    var pointReads, activations, modifiedIds, failed := ScanPoints(bus, numPoints);
    busReads := busReads + pointReads;
    if failed {
      events := activations;
      assert Sync !in events;
      return;
    }
    var releasedIds := knownIds & !modifiedIds;
    IdSetAndNot(knownIds, modifiedIds);
    var releases;
    releases, newKnownIds := ReleaseBits(releasedIds, modifiedIds);
    events := activations + releases + [MtSyncFrame, Sync];
  }
}
