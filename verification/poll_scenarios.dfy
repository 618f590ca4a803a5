/**
 Concrete poll cycles, worked out on fixed register contents: a lift of
 every finger, a first touch, a finger that stays while another lifts, a
 point read that fails halfway, an event type that is not acted on, a
 stale high id, and a count past the register block.
 */
module PollScenarios {
  import opened Registers
  import opened TouchDecode
  import opened TouchPoll
  import opened PollProperties

  /** A bus on which only the record of point 0 can be read. */
  function OnePoint(raw: RawTouch): nat -> Read<RawTouch> {
    o => if o == PointOffset(0) then ReadOk(raw) else ReadFailed
  }

  /** A bus on which every point record reads as the same bytes. */
  function EveryPoint(raw: RawTouch): nat -> Read<RawTouch> {
    o => ReadOk(raw)
  }

  /** Ids 3 and 5 were down and the count is 0: both are released, in that order, and nothing stays known. */
  lemma AllFingersLifted(bus: nat -> Read<RawTouch>)
    ensures Poll({3, 5}, ReadOk(0), bus) ==
      PollResult([Request(2, 1)], [Release(3), Release(5), MtSyncFrame, Sync], {})
  {
    assert ReleaseEvents({3, 5}, 5) == [Release(5)];
    assert ReleaseEvents({3, 5}, 3) == [Release(3), Release(5)];
  }

  /** A one-point cycle whose read succeeds, in terms of the decoded record. */
  lemma OnePointCycle(known: set<TouchId>, raw: RawTouch)
    ensures var t := DecodeTouch(raw);
      Poll(known, ReadOk(1), OnePoint(raw)) ==
        PollResult([CountRequest(), PointRequest(0)],
                   Activations([t]) + ReleaseEvents(known - {t.id}, 0) + [MtSyncFrame, Sync],
                   {t.id})
  {
    var bus := OnePoint(raw);
    var t := DecodeTouch(raw);
    assert ReadsSucceed(bus, 1);
    CompletedPoll(known, 1, bus);
    assert Decoded(bus, 1) == [t];
    assert Ids([t]) == {t.id};
    assert [CountRequest()] + PointReads(PointScan([t], false)) == [CountRequest(), PointRequest(0)];
  }

  /** xh 0x01, xl 0x2c, yh 0x20, yl 0x96: id 2 goes down at (300, 150). */
  lemma FirstTouch(raw: RawTouch)
    requires raw == RawTouch(0x01, 0x2C, 0x20, 0x96)
    ensures Poll({}, ReadOk(1), OnePoint(raw)) ==
      PollResult([Request(2, 1), Request(3, 4)], [Activate(2, 300, 150), MtSyncFrame, Sync], {2})
  {
    var t := DecodeTouch(raw);
    assert t == Touch(300, 150, 2, TouchDown);
    OnePointCycle({}, raw);
    ActivationsSingle(t);
    ReleaseNone({} - {t.id}, 0);
  }

  /** The release loop over no released id below ten emits nothing. */
  lemma {:induction false} ReleaseNone(released: set<TouchId>, i: nat)
    requires i <= MaxSupportedPoints
    requires forall j: TouchId :: j in released ==> j < i || MaxSupportedPoints <= j
    ensures ReleaseEvents(released, i) == []
    decreases MaxSupportedPoints - i
  {
    if i < MaxSupportedPoints {
      ReleaseNone(released, i + 1);
    }
  }

  /** The release loop over a single released id below ten emits just its release. */
  lemma {:induction false} ReleaseSingle(j: TouchId, i: nat)
    requires i <= j < MaxSupportedPoints
    ensures ReleaseEvents({j}, i) == [Release(j)]
    decreases j - i
  {
    if i < j {
      ReleaseSingle(j, i + 1);
    } else {
      ReleaseNone({j}, i + 1);
    }
  }

  /** Ids 1 and 2 were known and only id 1 is reported, in CONTACT: id 1 moves, id 2 is released. */
  lemma OneFingerLifts(raw: RawTouch)
    requires raw == RawTouch(0x80, 0x0A, 0x10, 0x14)
    ensures Poll({1, 2}, ReadOk(1), OnePoint(raw)) ==
      PollResult([Request(2, 1), Request(3, 4)], [Activate(1, 10, 20), Release(2), MtSyncFrame, Sync], {1})
  {
    var t := DecodeTouch(raw);
    assert t == Touch(10, 20, 1, TouchContact);
    OnePointCycle({1, 2}, raw);
    ActivationsSingle(t);
    assert {1, 2} - {t.id} == {2};
    ReleaseSingle(2, 0);
  }

  /**
   Three points announced, the read of point 1 fails: reads of points 0 and
   1 were issued, the activation of point 0 was handed over, and known_ids
   is kept with no sync.
   */
  lemma SecondReadFails(raw: RawTouch)
    requires raw == RawTouch(0x01, 0x2C, 0x20, 0x96)
    ensures Poll({7}, ReadOk(3), OnePoint(raw)) ==
      PollResult([Request(2, 1), Request(3, 4), Request(9, 4)], [Activate(2, 300, 150)], {7})
  {
    var bus := OnePoint(raw);
    var t := DecodeTouch(raw);
    assert t == Touch(300, 150, 2, TouchDown);
    assert ReadsSucceed(bus, 1) && bus(PointOffset(1)).ReadFailed?;
    PointReadFailure({7}, 3, bus, 1);
    ScanStopsAtFailure(bus, 3, 1);
    assert Decoded(bus, 1) == [t];
    ActivationsSingle(t);
  }

  /**
   xh 0x42, xl 0x10: event type 1 and x = 528. The point is not activated,
   but its id 4 enters known_ids, so it is not released either.
   */
  lemma UnreportedTypeStaysKnown(raw: RawTouch)
    requires raw == RawTouch(0x42, 0x10, 0x40, 0x00)
    ensures Poll({4}, ReadOk(1), OnePoint(raw)) ==
      PollResult([Request(2, 1), Request(3, 4)], [MtSyncFrame, Sync], {4})
  {
    var t := DecodeTouch(raw);
    assert t == Touch(528, 0, 4, 1);
    OnePointCycle({4}, raw);
    ActivationsSingle(t);
    ReleaseNone({4} - {t.id}, 0);
  }

  /** A known id 12 that is no longer reported is forgotten without a release. */
  lemma StaleHighIdForgotten(bus: nat -> Read<RawTouch>)
    ensures Poll({12}, ReadOk(0), bus) == PollResult([Request(2, 1)], [MtSyncFrame, Sync], {})
  {
  }

  /**
   A count of 11 as the source has it: the eleventh point read starts at
   offset 63, the end of the 63-byte block. The corrected poll issues only
   the count read.
   */
  lemma CountElevenOverruns(raw: RawTouch)
    ensures Request(63, 4) in PollAsWritten({}, ReadOk(11), EveryPoint(raw)).busReads
    ensures RegsSize == 63
    ensures Poll({}, ReadOk(11), EveryPoint(raw)) == Idle({})
  {
    var bus := EveryPoint(raw);
    assert ReadsSucceed(bus, 11);
    AsWrittenOverrunsRegs({}, 11, bus);
    assert PointRequest(10) == Request(63, 4);
  }
}
