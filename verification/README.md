# Raspberry Pi i2c touchscreen: the poll cycle

A model of `rpi_i2c_ts_poll`, the routine the Raspberry Pi official
touchscreen driver runs every poll period, together with the register block
it reads (`struct rpi_ts_regs`) and its constants (ten point records, touch
event codes DOWN = 0 and CONTACT = 2, the "not ready" count 99).

One poll reads the point count. It returns early on a failed read, on the
count 99, or on a count of 0 with no known touches. Otherwise it reads the
first four bytes of each point record in turn. It decodes each record into
a 12-bit x and y, a 4-bit touch id and a 2-bit event type. It sets the id's
bit in `modified_ids`, and it activates the id's slot when the type is DOWN
or CONTACT. Then it releases every id below ten that was in `known_ids` and
was not decoded this cycle. Finally it stores the decoded ids as the new
`known_ids` and emits a frame sync and an input sync.

The modules:

- `Registers` (registers.dfy): the register block as byte offsets. It places
  every field and shows what the count read and each point read cover.
- `TouchDecode` (touch_decode.dfy): decoding of a point record. It gives the
  source's mask-and-shift expressions on `bv8`/`bv32`, an encoder, and both
  round trips.
- `IdMask` (id_mask.dfy): the touch-id masks as `bv16`, read as sets of ids.
  Each mask operation of the poll is shown to be the matching set operation.
- `TouchPoll` (touch_poll.dfy): one poll cycle as a pure function over a bus
  oracle. It returns the reads issued, the events handed to the input layer,
  and the new `known_ids`.
  - `PollAsWritten` keeps the source's guard.
  - `Poll` bounds the count by the size of the register block (see Findings).
- `PollProperties` (poll_properties.dfy): what a cycle promises. This covers
  failures, activations, releases, the new `known_ids` and the syncs.
- `PollDriver` (poll_driver.dfy): the corrected routine, that is the source
  with the count bound of `Poll`, statement by statement and with loops. Its
  masks are 16 bits wide, which holds every value the source's `int` and
  `long` masks can take. It is proved to compute `Poll`.
- `PollScenarios` (poll_scenarios.dfy): concrete cycles on fixed register
  contents.

Two places where the code does something easy to misread:

- The new `known_ids` holds every id decoded in a completed cycle, whatever
  its event type, not only the DOWN and CONTACT ids. Line 91 sets the bit
  before the event type is checked, and line 107 stores that mask.
- A failing point read leaves `known_ids` unchanged and emits no release and
  no sync. The activations of the records read before the failure have
  already been handed to the input layer by then (lines 93-98 run before the
  next read), so they are part of the cycle's events.

The bus is an oracle: `Read<T>` is a failed read or the bytes read. The
point reads are a function from register offset to `Read<RawTouch>`. The
input layer is the output sequence of `Event`s:

- `Activate(id, x, y)`: `input_mt_slot`, `input_mt_report_slot_state` and
  `touchscreen_report_pos`;
- `Release(id)`: `input_mt_slot` and `input_mt_report_slot_inactive`;
- `MtSyncFrame`: `input_mt_sync_frame`;
- `Sync`: `input_sync`.

## Model

| member | source | states |
|---|---|---|
| Registers.PointFieldAt | raspberrypi-i2c-ts.c:46-53 | each of the six positions in a point record holds the field declared there: xh, xl, yh, yl, pressure, area |
| Registers.PointOffset | raspberrypi-i2c-ts.c:42-54 | offsetof(struct rpi_ts_regs, point[i]) is 3 + 6i; PointReadCoversCoordinates states which bytes a read there covers |
| Registers.FieldOffset | raspberrypi-i2c-ts.c:42-54 | the offset of each field of the block; FieldAtFieldOffset states that these offsets are distinct and inside the 63 bytes |
| Registers.FieldAt | raspberrypi-i2c-ts.c:42-54 | a byte offset names a field exactly when it is below the 63-byte size of the block, and the field named sits at that offset |
| Registers.FieldAtFieldOffset | raspberrypi-i2c-ts.c:42-54 | every field of the block, point records 0..9 included, lies inside the block and is found again at its own offset, so no two fields share a byte |
| Registers.NumPointsReadCoversCount | raspberrypi-i2c-ts.c:69 | the one-byte read at offsetof(num_points) is offset 2 and covers exactly the count byte |
| Registers.PointReadCoversCoordinates | raspberrypi-i2c-ts.c:80 | the 4-byte read at point i's offset covers xh, xl, yh and yl of record i and no pressure or area byte; it stays inside the block exactly when i < 10 |
| TouchDecode.Coord | raspberrypi-i2c-ts.c:86-87 | a coordinate is below 4096; its high byte is the low nibble of the high register and its low byte is the low register |
| TouchDecode.Reports | raspberrypi-i2c-ts.c:93-94 | the test that the event type is DOWN (0) or CONTACT (2); PollProperties.ActivationsSingle states that exactly such a record is activated |
| TouchDecode.DecodeTouch | raspberrypi-i2c-ts.c:86-89 | x and y split into the low nibble of xh/yh and all of xl/yl; the touch id is the high nibble of yh (0..15); the event type is the top two bits of xh (0..3) |
| TouchDecode.SourceCoord | raspberrypi-i2c-ts.c:86-87 | `((hi & 0xf) << 8) + lo` in a 32-bit int equals the bitwise or of the same two parts and equals the decoded coordinate |
| TouchDecode.SourceTouchId | raspberrypi-i2c-ts.c:88 | `(yh >> 4) & 0xf` is yh divided by 16 |
| TouchDecode.SourceEventType | raspberrypi-i2c-ts.c:89 | `(xh >> 6) & 0x03` is xh divided by 64 |
| TouchDecode.DecodeMatchesSource | raspberrypi-i2c-ts.c:86-89 | for all four register bytes, the decoded x, y, id and type are the values of the source's four bit-vector expressions |
| TouchDecode.DecodeEncode | raspberrypi-i2c-ts.c:86-89 | every touch that the encoder packs into four bytes decodes back to itself, so the decoding reaches every coordinate, id and type |
| TouchDecode.UsedBits | raspberrypi-i2c-ts.c:86-89 | clearing bits 4 and 5 of xh keeps its top two bits and low nibble, the only bits decoding reads |
| TouchDecode.UsedBitsMask | raspberrypi-i2c-ts.c:86-89 | UsedBits is the bit mask `xh & 0xcf` |
| TouchDecode.EncodeDecode | raspberrypi-i2c-ts.c:86-89 | decoding then encoding a record gives back all four bytes except bits 4 and 5 of xh, which decoding ignores |
| IdMask.Bit | raspberrypi-i2c-ts.c:91 | BIT(i) for a 4-bit touch id is a mask with exactly one bit set |
| IdMask.BitIsShift | raspberrypi-i2c-ts.c:91 | the single-bit mask of id i is `1 << i` |
| IdMask.BitInjective | raspberrypi-i2c-ts.c:91 | two ids have the same bit exactly when they are the same id |
| IdMask.Has | raspberrypi-i2c-ts.c:102 | the bit test behind for_each_set_bit: id i is in a mask when the mask meets BIT(i); HasWithBit, HasAndNot and HasOnlyOwnBit state how it reacts to each mask operation |
| IdMask.IdSet | raspberrypi-i2c-ts.c:61-62 | the set of ids a mask holds; the IdSet lemmas below state each mask operation as a set operation |
| IdMask.IdSetInjective | raspberrypi-i2c-ts.c:61-62 | two masks hold the same ids exactly when they are the same mask, so a mask is known once its ids are |
| IdMask.HasOnlyOwnBit | raspberrypi-i2c-ts.c:105 | BIT(i) tests positive for id i and for no other id |
| IdMask.HasWithBit | raspberrypi-i2c-ts.c:91 | after setting BIT(i) in m an id tests positive exactly when it did before or is i |
| IdMask.HasAndNot | raspberrypi-i2c-ts.c:101 | an id is in `a & ~b` exactly when it is in a and not in b |
| IdMask.IdSetEmpty | raspberrypi-i2c-ts.c:76 | a mask holds no id exactly when it is 0, so `known_ids == 0` is the test for no known touches |
| IdMask.IdSetWithBit | raspberrypi-i2c-ts.c:91 | setting BIT(touchid) in modified_ids adds touchid to the set of ids and nothing else |
| IdMask.IdSetAndNot | raspberrypi-i2c-ts.c:101 | `known_ids & ~modified_ids` holds the set difference of the two id sets |
| IdMask.IdSetClearBit | raspberrypi-i2c-ts.c:105 | `modified_ids &= ~BIT(i)` removes id i from the set and nothing else |
| TouchPoll.ReadPoints | raspberrypi-i2c-ts.c:79-89 | the point loop decodes the records of points 0, 1, ... in order; it fails exactly when it stops short of n, and then the read at the next index is the one that failed |
| TouchPoll.CountRequest | raspberrypi-i2c-ts.c:69 | the one-byte read at offsetof(num_points); Registers.NumPointsReadCoversCount states that it is offset 2 and covers exactly the count byte |
| TouchPoll.PointRequest | raspberrypi-i2c-ts.c:80 | the 4-byte read at offsetof(point[i]); PointReadCoversCoordinates states that it covers xh..yl of record i and stays in the block exactly when i < 10 |
| PollProperties.ScanReads | raspberrypi-i2c-ts.c:79-89 | the k-th point read issued is the read of record k, it succeeded exactly when k is below the number of decoded records, and then its bytes decode to the k-th decoded touch; there are at most n reads |
| TouchPoll.Activation | raspberrypi-i2c-ts.c:95-97 | slot selection, slot activation and position report of one touch as one Activate(id, x, y); TouchPoll.Activations states which touches produce one |
| TouchPoll.Activations | raspberrypi-i2c-ts.c:93-98 | every event is an activation; each DOWN or CONTACT touch activates its slot with its x and y; every activation comes from such a touch, and types 1 and 3 give none |
| TouchPoll.Observe | raspberrypi-i2c-ts.c:91 | the mask built by the point loop holds the ids of all decoded touches |
| TouchPoll.IdsAppend | raspberrypi-i2c-ts.c:91 | decoding one more record adds exactly its id to the decoded ids |
| TouchPoll.ReleaseClear | raspberrypi-i2c-ts.c:102-105 | the release loop from bit i removes from modified_ids exactly the released ids in [i, 10) |
| TouchPoll.ReleaseEvents | raspberrypi-i2c-ts.c:102-104 | the releases the loop emits from bit i on; ReleaseEventsExactly states that they are one per released id in [i, 10), ascending, and nothing else |
| TouchPoll.ReleaseEventsSound | raspberrypi-i2c-ts.c:102-104 | the release loop from bit i emits only releases, of released ids in [i, 10) |
| TouchPoll.ReleaseEventsAscending | raspberrypi-i2c-ts.c:102-104 | the release loop emits its releases in strictly ascending id order |
| TouchPoll.ReleaseEventsComplete | raspberrypi-i2c-ts.c:102-104 | the release loop from bit i emits a release for every released id in [i, 10) |
| TouchPoll.ReleaseEventsExactly | raspberrypi-i2c-ts.c:102-104 | the release loop's events are one release for each released id below ten and nothing else, in ascending order |
| TouchPoll.Cycle | raspberrypi-i2c-ts.c:79-110 | after the count check the cycle issues the count read and then point reads 0, 1, ... in order, at most one per announced point |
| TouchPoll.Idle | raspberrypi-i2c-ts.c:69-77 | the result of the early returns at lines 72 and 77: only the count read, no event, known_ids kept; TouchPoll.PollAsWritten and TouchPoll.Poll state when a poll is idle |
| TouchPoll.SkipsAsWritten | raspberrypi-i2c-ts.c:75-76 | the source's early return: the count 99, or a count of 0 with no known ids; PollAsWritten and Poll state that it leaves the poll idle |
| TouchPoll.PollAsWritten | raspberrypi-i2c-ts.c:69-77 | the source's poll: a failed count read, the count 99, or a count of 0 with no known ids emits nothing and keeps known_ids; any other count issues at most count point reads, in order |
| TouchPoll.Poll | raspberrypi-i2c-ts.c:69-110 | the corrected poll: every read stays inside the register block; a failed count read, the count 99, a count of 0 with no known ids, or a count above ten emits nothing and keeps known_ids |
| PollProperties.ScanStopsAtFailure | raspberrypi-i2c-ts.c:79-84 | when reads 0..i-1 succeed and read i fails, the point loop ends with the i records before it decoded, whatever the count |
| PollProperties.ScanCompletes | raspberrypi-i2c-ts.c:79-89 | when the first n reads succeed, the point loop decodes all n records in register order |
| PollProperties.ActivationsSingle | raspberrypi-i2c-ts.c:93-98 | one record gives one activation with its id, x and y when its type is DOWN or CONTACT and none otherwise; with ActivationsConcat, exactly one activation per such record in register order |
| PollProperties.ActivationsConcat | raspberrypi-i2c-ts.c:93-98 | the activations of records a then b are those of a followed by those of b, so activations keep register-index order |
| PollProperties.PointReadFailure | raspberrypi-i2c-ts.c:79-84 | a failing read of point i keeps known_ids, issues i + 2 reads, and emits only the activations of records 0..i-1, with no release, frame sync or input sync |
| PollProperties.CompletedPoll | raspberrypi-i2c-ts.c:79-110 | a cycle whose reads all succeed is the count read and point reads, then activations, releases, MtSyncFrame, Sync, with the decoded ids as the new known_ids |
| PollProperties.PollReadsAllPoints | raspberrypi-i2c-ts.c:69-80 | a completed cycle issues the count read and then exactly one read per announced point, record k at position k + 1 |
| PollProperties.PollActivationsFirst | raspberrypi-i2c-ts.c:93-104 | a completed cycle's events start with its activations, before any release |
| PollProperties.PollSyncsLast | raspberrypi-i2c-ts.c:109-110 | a completed cycle ends with one MtSyncFrame followed by one Sync, and has neither anywhere before |
| PollProperties.PollKnownIds | raspberrypi-i2c-ts.c:91-107 | the new known_ids of a completed cycle is exactly the set of ids decoded in it, whatever their event type, independent of the old known_ids |
| PollProperties.DroppedReleases | raspberrypi-i2c-ts.c:101-104 | the releases are in ascending order, and an id is released exactly when it is below ten, was known, and is not decoded this cycle |
| PollProperties.PollReleases | raspberrypi-i2c-ts.c:101-110 | the events between the activations and the frame sync are exactly the releases of the known ids below ten not decoded this cycle |
| PollProperties.HighIdDroppedSilently | raspberrypi-i2c-ts.c:101-107 | a known id from 10 to 15 that is not decoded again leaves known_ids without any release event |
| PollProperties.ReleaseClearingIsNoOp | raspberrypi-i2c-ts.c:105 | the clearing inside the release loop never changes modified_ids, because the released ids are exactly those not in it |
| PollProperties.AsWrittenOverrunsRegs | raspberrypi-i2c-ts.c:75-80 | for a count from 11 to 255 other than 99 whose reads succeed, the source reads record count-1, whose 4 bytes end past the register block |
| PollProperties.PollMatchesAsWrittenInBounds | raspberrypi-i2c-ts.c:69-110 | for counts of at most ten, and for a failed count read, the corrected poll is the source's poll |
| PollDriver.ScanStaysFailed | raspberrypi-i2c-ts.c:81-84 | once a point read has failed, later indices change nothing in the scan |
| PollDriver.ScanStep | raspberrypi-i2c-ts.c:79-89 | one more loop iteration either decodes the next record or marks the scan as failed, and issues the next point read |
| PollDriver.RecordPoint | raspberrypi-i2c-ts.c:86-98 | the loop body decodes the record, sets its id bit in modified_ids, and adds its activation when its type is DOWN or CONTACT |
| PollDriver.ScanPoint | raspberrypi-i2c-ts.c:80-98 | one loop iteration issues the read of point i and either ends the scan as failed or records the point, extending the scan by one index |
| PollDriver.ScanPoints | raspberrypi-i2c-ts.c:79-99 | the loop over the point records, on the bv16 mask, gives the reads, the activations, the mask of decoded ids and the failure that the point scan describes |
| PollDriver.ReleasesSplit | raspberrypi-i2c-ts.c:102-106 | the releases the loop has emitted below bit j, followed by those from j on, are all of its releases |
| PollDriver.ReleaseBits | raspberrypi-i2c-ts.c:101-106 | for_each_set_bit over the first ten bits of released_ids, on bv16 masks, emits the releases and leaves the modified_ids that the set-level release loop describes |
| PollDriver.ClearingIsNoOpOnMasks | raspberrypi-i2c-ts.c:101-107 | with released_ids = known_ids & ~modified_ids, the mask the release loop leaves is modified_ids itself, bit for bit, so line 105 changes nothing |
| PollDriver.RunPoll | raspberrypi-i2c-ts.c:56-111 | the whole routine, with the count bound of the corrected poll added to the guard at lines 75-76, on the 16-bit known_ids computes the reads, events and new known_ids of the corrected poll, and leaves the mask untouched when it ends before the sync |
| PollScenarios.AllFingersLifted | raspberrypi-i2c-ts.c:75-110 | with ids 3 and 5 known and a count of 0, the poll emits Release(3), Release(5), MtSyncFrame, Sync and forgets both |
| PollScenarios.OnePointCycle | raspberrypi-i2c-ts.c:79-110 | a one-point cycle is the count read and the read of record 0, then that record's activation if any, the releases of the other known ids below ten, and the syncs |
| PollScenarios.FirstTouch | raspberrypi-i2c-ts.c:86-110 | the bytes 0x01 0x2c 0x20 0x96 with no known ids activate id 2 at (300, 150), then sync, and id 2 becomes known |
| PollScenarios.OneFingerLifts | raspberrypi-i2c-ts.c:86-110 | with ids 1 and 2 known and only id 1 reported in CONTACT, the poll activates 1, releases 2, syncs, and keeps only 1 |
| PollScenarios.SecondReadFails | raspberrypi-i2c-ts.c:79-84 | with three points announced and the read of point 1 failing, the reads stop there, id 2's activation has been emitted, and known_ids stays {7} |
| PollScenarios.UnreportedTypeStaysKnown | raspberrypi-i2c-ts.c:86-107 | a record of event type 1 with x = 528 is not activated, but its id stays known and is not released |
| PollScenarios.StaleHighIdForgotten | raspberrypi-i2c-ts.c:101-107 | a known id 12 that is no longer reported is forgotten with no release, only the syncs |
| PollScenarios.CountElevenOverruns | raspberrypi-i2c-ts.c:75-80 | with a count of 11 the source issues a 4-byte read at offset 63, the end of the 63-byte block; the corrected poll issues only the count read |

## Left out

- `touchscreen_report_pos` (line 97) applies the board's axis inversion, swap
  and clamping through a library whose code is not part of this model.
  `Activate` carries the raw decoded x and y.
- `regmap_bulk_read` and the I2C transfer (lines 69 and 80) are the bus
  oracle. The model does not look into a read's error code or into the bytes
  a failed read may have left in the buffer.
- `dev_err_ratelimited` (lines 71 and 82) only logs, so the model has no
  logging.
- The slot state machine of the input layer (`input_mt_*`, `input_sync`) is
  not modelled. The events are what the poll hands over, in order.
- The pressure and area bytes are in the register layout, but the poll never
  reads them.
- Probe, the regmap configuration, device matching and driver registration
  (lines 115 onward), the 800x480 default size, and the 17 ms poll interval
  are one-time setup and scheduling outside the poll.
- Integer widths: `known_ids` and `modified_ids` are `int` and
  `released_ids` a `long` in the source. The model's masks are 16 bits wide
  because every bit ever set is BIT(touchid) with touchid below 16, so the
  upper bits stay clear and a 16-bit mask holds every value they take.
- PollAsWritten: for a count from 11 to 255 other than 99, line 80 writes
  past `regs` on the stack, which is undefined behaviour in C. The model
  shows only the reads the loop issues as if those writes disturbed nothing
  else; what the overrun corrupts is not modelled.
- Concurrency is out of scope: one poll runs to completion before the next
  starts.

## Findings

| source | as written | input that shows it | evidently intended | confidence | as-written member | corrected member |
|---|---|---|---|---|---|---|
| raspberrypi-i2c-ts.c:75-80 | the guard rejects only the count 99 and "0 with no known ids", so the loop runs for any count up to 255 and reads into `regs.point[i]` past its ten elements | a count of 11 with every read succeeding: the read of record 10 is at offset 63, the end of the 63-byte `struct rpi_ts_regs` | a count above RPI_TS_MAX_SUPPORTED_POINTS is treated as bad data, like the count 99 | not executed | TouchPoll.PollAsWritten (shown by PollProperties.AsWrittenOverrunsRegs and PollScenarios.CountElevenOverruns) | TouchPoll.Poll (every read inside the block; equal to the source for counts up to ten by PollProperties.PollMatchesAsWrittenInBounds) |
