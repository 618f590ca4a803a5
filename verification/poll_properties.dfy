/**
 What one poll cycle promises: the outcome of a failing point read, the
 activations, the new known_ids, the releases and the frame sync of a
 completed cycle, and the overrun the source's guard lets through.
 */
module PollProperties {
  import opened Registers
  import opened TouchDecode
  import opened TouchPoll

  /** The count is one Poll acts on: at most ten points, not the sentinel, not "nothing to do". */
  predicate Proceeds(count: Byte, known: set<TouchId>) {
    count <= MaxSupportedPoints && !SkipsAsWritten(count, known)
  }

  /** With reads 0..i-1 succeeding and read i failing, the point loop stops after read i. */
  lemma ScanStopsAtFailure(bus: nat -> Read<RawTouch>, n: nat, i: nat)
    requires i < n && ReadsSucceed(bus, i) && bus(PointOffset(i)).ReadFailed?
    ensures ReadPoints(bus, n) == PointScan(Decoded(bus, i), true)
  {
    var s := ReadPoints(bus, n);
    assert |s.touches| == i;
    assert s.touches == Decoded(bus, i);
  }

  /** With the first n reads succeeding, the point loop decodes all n records. */
  lemma ScanCompletes(bus: nat -> Read<RawTouch>, n: nat)
    requires ReadsSucceed(bus, n)
    ensures ReadPoints(bus, n) == PointScan(Decoded(bus, n), false)
  {
    var s := ReadPoints(bus, n);
    assert !s.failed;
    assert s.touches == Decoded(bus, n);
  }

  /**
   The point reads a scan issues, against the bus: the k-th is the read of
   record k, it succeeded exactly when k is below the number of records
   decoded, and then it holds the k-th decoded record; there are at most n.
   */
  lemma ScanReads(bus: nat -> Read<RawTouch>, n: nat)
    ensures |PointReads(ReadPoints(bus, n))| <= n
    ensures forall k :: 0 <= k < |PointReads(ReadPoints(bus, n))| ==>
      && PointReads(ReadPoints(bus, n))[k] == PointRequest(k)
      && (bus(PointReads(ReadPoints(bus, n))[k].offset).ReadOk? <==> k < |ReadPoints(bus, n).touches|)
    ensures forall k :: 0 <= k < |ReadPoints(bus, n).touches| ==>
      ReadPoints(bus, n).touches[k] == DecodeTouch(bus(PointReads(ReadPoints(bus, n))[k].offset).value)
  {
  }

  /** Activations keep register-index order: those of a prefix come before those of the rest. */
  lemma {:induction false} ActivationsConcat(a: seq<Touch>, b: seq<Touch>)
    ensures Activations(a + b) == Activations(a) + Activations(b)
    decreases |b|
  {
    if b == [] {
      assert a + b == a;
    } else {
      var init := b[..|b| - 1];
      var last := b[|b| - 1];
      assert (a + b)[..|a + b| - 1] == a + init;
      assert (a + b)[|a + b| - 1] == last;
      ActivationsConcat(a, init);
    }
  }

  /**
   One touch activates its slot exactly when it is DOWN or CONTACT. With
   ActivationsConcat this fixes the activations of any sequence: one per
   DOWN or CONTACT record, in register order.
   */
  lemma ActivationsSingle(t: Touch)
    ensures Activations([t]) == if Reports(t) then [Activation(t)] else []
  {
    assert [t][..0] == [];
  }

  /**
   A failing point read ends the cycle: known_ids is kept, the reads stop at
   the failing one, and only the activations of the records read before it
   have been handed over, with no release, frame sync or input sync.
   */
  lemma PointReadFailure(known: set<TouchId>, count: Byte, bus: nat -> Read<RawTouch>, i: nat)
    requires Proceeds(count, known)
    requires i < count && ReadsSucceed(bus, i) && bus(PointOffset(i)).ReadFailed?
    ensures Poll(known, ReadOk(count), bus).knownIds == known
    ensures |Poll(known, ReadOk(count), bus).busReads| == i + 2
    ensures Poll(known, ReadOk(count), bus).events == Activations(Decoded(bus, i))
    ensures forall e :: e in Poll(known, ReadOk(count), bus).events ==> e.Activate?
  {
    ScanStopsAtFailure(bus, count, i);
  }

  /** A completed cycle, spelled out: its reads, activations, releases and frame sync, and the new known_ids. */
  lemma CompletedPoll(known: set<TouchId>, count: Byte, bus: nat -> Read<RawTouch>)
    requires Proceeds(count, known) && ReadsSucceed(bus, count)
    ensures var ts := Decoded(bus, count);
      Poll(known, ReadOk(count), bus) ==
        PollResult([CountRequest()] + PointReads(PointScan(ts, false)),
                   Activations(ts) + ReleaseEvents(known - Ids(ts), 0) + [MtSyncFrame, Sync],
                   Ids(ts))
  {
    ScanCompletes(bus, count);
    ReleaseClearingIsNoOp(known, Ids(Decoded(bus, count)));
  }

  /** A cycle whose reads all succeed issues the count read and one read per point. */
  lemma PollReadsAllPoints(known: set<TouchId>, count: Byte, bus: nat -> Read<RawTouch>)
    requires Proceeds(count, known) && ReadsSucceed(bus, count)
    ensures var r := Poll(known, ReadOk(count), bus);
      && |r.busReads| == count + 1
      && r.busReads[0] == CountRequest()
      && forall k :: 0 <= k < count ==> r.busReads[k + 1] == PointRequest(k)
  {
    CompletedPoll(known, count, bus);
  }

  /** The three parts of a completed cycle's events, read back from their concatenation. */
  lemma CycleEventsSplit(acts: seq<Event>, rel: seq<Event>)
    ensures var es := acts + rel + [MtSyncFrame, Sync];
      && |es| == |acts| + |rel| + 2
      && es[..|acts|] == acts
      && es[|acts|..|es| - 2] == rel
      && es[|es| - 2..] == [MtSyncFrame, Sync]
      && es[..|es| - 2] == acts + rel
  {
    var es := acts + rel + [MtSyncFrame, Sync];
    assert es[..|acts|] == acts;
    assert es[|acts|..|es| - 2] == rel;
    assert es[..|es| - 2] == acts + rel;
  }

  /** Activations and releases hold no frame sync and no input sync. */
  lemma NoSyncAmong(acts: seq<Event>, rel: seq<Event>)
    requires forall e :: e in acts ==> e.Activate?
    requires forall k :: 0 <= k < |rel| ==> rel[k].Release?
    ensures MtSyncFrame !in acts + rel && Sync !in acts + rel
  {
    forall e | e in acts + rel
      ensures e.Activate? || e.Release?
    {
      if e !in acts {
        var k :| 0 <= k < |rel| && rel[k] == e;
      }
    }
  }

  /** A completed cycle hands over its activations first, in register-index order. */
  lemma PollActivationsFirst(known: set<TouchId>, count: Byte, bus: nat -> Read<RawTouch>)
    requires Proceeds(count, known) && ReadsSucceed(bus, count)
    ensures var r := Poll(known, ReadOk(count), bus);
      var acts := Activations(Decoded(bus, count));
      |r.events| >= |acts| + 2 && r.events[..|acts|] == acts
  {
    CompletedPoll(known, count, bus);
    var ts := Decoded(bus, count);
    CycleEventsSplit(Activations(ts), ReleaseEvents(known - Ids(ts), 0));
  }

  /** A completed cycle ends with exactly one MtSyncFrame followed by one Sync, and has neither before. */
  lemma PollSyncsLast(known: set<TouchId>, count: Byte, bus: nat -> Read<RawTouch>)
    requires Proceeds(count, known) && ReadsSucceed(bus, count)
    ensures var es := Poll(known, ReadOk(count), bus).events;
      && |es| >= 2
      && es[|es| - 2..] == [MtSyncFrame, Sync]
      && MtSyncFrame !in es[..|es| - 2]
      && Sync !in es[..|es| - 2]
  {
    CompletedPoll(known, count, bus);
    var ts := Decoded(bus, count);
    var rel := ReleaseEvents(known - Ids(ts), 0);
    DroppedReleases(known, Ids(ts));
    CycleEventsSplit(Activations(ts), rel);
    NoSyncAmong(Activations(ts), rel);
  }

  /**
   The known_ids a completed cycle stores holds exactly the ids decoded in
   it, whatever their event type, and does not depend on the old known_ids.
   */
  lemma PollKnownIds(known: set<TouchId>, count: Byte, bus: nat -> Read<RawTouch>)
    requires Proceeds(count, known) && ReadsSucceed(bus, count)
    ensures Poll(known, ReadOk(count), bus).knownIds == Ids(Decoded(bus, count))
    ensures forall j: TouchId :: j in Poll(known, ReadOk(count), bus).knownIds <==>
      exists k :: 0 <= k < count && Decoded(bus, count)[k].id == j
  {
    CompletedPoll(known, count, bus);
  }

  /** The releases for the ids known before a cycle and not decoded in it. */
  lemma DroppedReleases(known: set<TouchId>, observed: set<TouchId>)
    ensures var rel := ReleaseEvents(known - observed, 0);
      && (forall k :: 0 <= k < |rel| ==> rel[k].Release?)
      && AscendingIds(rel)
      && (forall j: TouchId :: Release(j) in rel <==> j < MaxSupportedPoints && j in known && j !in observed)
  {
    var released := known - observed;
    ReleaseEventsExactly(released, 0);
    var rel := ReleaseEvents(released, 0);
    forall j: TouchId | Release(j) in rel
      ensures j < MaxSupportedPoints && j in released
    {
      var k :| 0 <= k < |rel| && rel[k] == Release(j);
    }
  }

  /**
   The releases of a completed cycle sit between the activations and the
   frame sync: one for each id below ten that was known and is not decoded
   this cycle, in ascending id order, and nothing else.
   */
  lemma PollReleases(known: set<TouchId>, count: Byte, bus: nat -> Read<RawTouch>)
    requires Proceeds(count, known) && ReadsSucceed(bus, count)
    ensures var r := Poll(known, ReadOk(count), bus);
      var ts := Decoded(bus, count);
      var acts := Activations(ts);
      && |r.events| >= |acts| + 2
      && r.events[|acts|..|r.events| - 2] == ReleaseEvents(known - Ids(ts), 0)
  {
    CompletedPoll(known, count, bus);
    var ts := Decoded(bus, count);
    CycleEventsSplit(Activations(ts), ReleaseEvents(known - Ids(ts), 0));
  }

  /** A known id from 10 to 15 that is not decoded again is dropped from known_ids without a release. */
  lemma HighIdDroppedSilently(known: set<TouchId>, count: Byte, bus: nat -> Read<RawTouch>, j: TouchId)
    requires Proceeds(count, known) && ReadsSucceed(bus, count)
    requires MaxSupportedPoints <= j && j in known && j !in Ids(Decoded(bus, count))
    ensures j !in Poll(known, ReadOk(count), bus).knownIds
    ensures Release(j) !in Poll(known, ReadOk(count), bus).events
  {
    CompletedPoll(known, count, bus);
    var ts := Decoded(bus, count);
    DroppedReleases(known, Ids(ts));
    var rel := ReleaseEvents(known - Ids(ts), 0);
    assert Release(j) !in Activations(ts);
    assert Release(j) !in rel;
  }

  /**
   The clearing inside the release loop (line 105 of the source) never
   changes modified_ids: the released ids are those absent from it.
   */
  lemma ReleaseClearingIsNoOp(known: set<TouchId>, observed: set<TouchId>)
    ensures ReleaseClear(known - observed, observed, 0) == observed
  {
  }

  /**
   The source's guard lets every count from 11 to 255 but 99 through, and the
   point loop then reads record count-1 into regs.point[count-1], past the end
   of the ten-record block.
   */
  lemma AsWrittenOverrunsRegs(known: set<TouchId>, count: Byte, bus: nat -> Read<RawTouch>)
    requires MaxSupportedPoints < count && count != NumPointsInvalidate
    requires ReadsSucceed(bus, count)
    ensures PointRequest(count - 1) in PollAsWritten(known, ReadOk(count), bus).busReads
    ensures PointOffset(count - 1) + PointReadLength > RegsSize
  {
    var n: nat := count;
    ScanCompletes(bus, n);
    var s := ReadPoints(bus, n);
    assert PollAsWritten(known, ReadOk(count), bus) == Cycle(known, n, bus);
    var issued := Cycle(known, n, bus).busReads;
    assert issued == [CountRequest()] + PointReads(s);
    assert issued[n] == PointReads(s)[n - 1];
  }

  /** With at most ten points the corrected poll is the source's poll. */
  lemma PollMatchesAsWrittenInBounds(known: set<TouchId>, countRead: Read<Byte>, bus: nat -> Read<RawTouch>)
    requires countRead.ReadOk? ==> countRead.value <= MaxSupportedPoints
    ensures Poll(known, countRead, bus) == PollAsWritten(known, countRead, bus)
  {
  }
}
