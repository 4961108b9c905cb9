# Master clock firmware: verified model

This project models the stateful kernels of the clock's dsPIC firmware, and the
framing code it shares with the ESP, and proves what their comments promise over
every input, run or interleaving. `dafny verify dfyconfig.toml` checks all of it.

Code that changes things step by step in C is a class with the same fields and a
method per C function, proved against a functional specification; what the source
promises is proved of the specification, or kept as an invariant over whole runs.

| file | models |
|---|---|
| `MachineWords`, `Crc16` | fixed-width integers; CRC-16/IBM-3740 by nibble table |
| `Flash`, `StoreFormat`, `StoreTables`, `Store` | the settings journal over two flash pages |
| `Scanner` | framing by rescan, as a batch scan of a whole stream |
| `SmlParser`, `SmlCodec`, `SmlMessages` | SML frames, byte order, message table |
| `UbxParser`, `UbxCfg` | UBX frames, the CFG builder and the VALGET reader |
| `Utc`, `Calendar`, `UtcFormat` | leap seconds, the Gregorian calendar, intervals as text |
| `SyncSource` | judging a time source |
| `SyncModel`, `SyncLog`, `SyncRuns`, `Sync` | the synchroniser: an epoch as a function, what runs promise, and the code's own form |
| `I2c`, `Uart` | the I2C queue and the UART rings, with their interrupts |
| `Rtc`, `GnssEpoch` | reckoning from the RTC; navigation epochs |

## How the surroundings are modelled

- **Flash.** `Flash.WriteDouble` and `Flash.ErasePage` are atomic. How each operation goes
  is given beforehand by any plan at all: as it should, failing without effect, or being
  the last before the power goes (done or not). `Faults()` counts those so far that did not go as they should. An erase
  that fails, or is cut short, may leave anything in its page, except a good header that was
  not there before. Nothing happens while the power is off. The programming rule of
  `drivers/flash.h` is the precondition of `WriteDouble`, so every write of every run is
  aligned, inside the store, and to a double word not programmed since it was erased.
- **Chance.** `TornDetected` is the only assumption about data: no proper prefix of a
  record's double words, padded by erased flash, passes its CRC. `AppendCut` says what
  is found without it. For headers no assumption is needed: `HalfHeaderInvalid`.
- **Control loop.** `timing/epoch_control` is any loop at all: each epoch brings a
  tracking flag, a resync epoch, an update kind and an offset. What it is asked
  (restarts and free-run steps) is logged, and so are state changes and each epoch's contest.
- **Interrupts.** I2C: submit, service and interrupt are the atomic steps, as the
  driver masks MI2C1. UART: `Interrupts()` between any two steps of the foreground runs
  any number of interrupts and hardware events.

## Where the code and its documentation differ

The model follows the code.

- `utc_format_ns()` is documented as four significant figures (platform/utc.h:78-81). The
  last 50 ms below 1000 s print as five, `1000.0 s`: `UtcFormat.FormatNs` proves exactly
  when, and 999.96 s is one: `UtcFormat.FiveFigures`.
- The bound of an RTC anchor (sync/source_rtc.h:26-28) adds half of the search's gap to that
  of the clock. For a gap of an odd number of ticks the middle is half a tick
  off and the halving rounds down, so it can be 13 ns short; and it is cut off at its greatest
  value. `RtcReckoning.AnchorSound` says exactly when it holds, `RtcReckoning.WidenedSound` the same
  of the half resolution added to it when it is reported.
- The RTC is to be checked often enough to stay within 500 ms (sync/source_rtc.h:44-47). The
  interval leaves out the fraction of a tick a second, so at some rates it drifts up to 0.54 ms
  further: `RtcReckoning.DriftLimited` says at which, `RtcReckoning.DriftsPast` is one.
- A refused add is documented as spoiling a CFG message (gnss/ubx_encode.h:26-27). An add
  of the wrong kind is only refused, and the message finished all the same:
  `UbxConfig.ValsetInValget`, `UbxConfig.ValgetInValset`.
- The state table of sync/sync.h:56-69 has no LOCKED to FREE_RUN, nor ACQUIRE or LOCKED to
  ACQUIRE when the source fails. Both happen once holdover is worth nothing: its bound
  past the limit, as after a coarse fallback, or, in ACQUIRE, not ready. `SyncRuns.LostLeft`
  says exactly when, `SyncRuns.LockedToFreeRun` is a run that gets there.
- A GNSS epoch is labelled by rounding in Unix seconds, and flagged by the calendar. Rounded
  across a leap second it gets a label the timeline does not have, or one that is off by a
  real second and still passes as valid: `GnssEpochs.LabelledOnTimeline` says exactly when,
  `GnssEpochs.BesideInserted` is an instance.
- The epoch is to be stepped onto the RTC the first epoch that is GOOD (sync/sync.h:79-80); one
  that is INACCURATE will do: `Synchroniser.Synchroniser.AlignToTimeOfDay`.
- A label that does not follow on only demotes a source that is otherwise GOOD; an
  INACCURATE one (a fallback) stays usable: `SyncSource.SourceTracker.Judge`, `SyncRuns.UsedIsFit`.

## Model

| member | source | states |
|---|---|---|
| SettingsStore.Life | dspic_src/settings/store.h:20-27 | over any writes, each failed or cut short at any flash operation, with restarts anywhere: at the end a restart reads, for every type, its last completed record or one attempted since, loses none that was completed, and holds nothing else; a write that could be made completes unless a flash operation in it goes wrong, and no more go wrong than the flash has faults; and a page is erased only by a write whose record the other had no room for, or once a fault has spoiled that |
| SettingsStore.NothingFails | dspic_src/settings/store.h:20-27 | so with no fault every such write completes and each type holds what was last written to it |
| SettingsStore.Store.Write | dspic_src/settings/store.c:335-374 | a write that says it succeeded holds the new record and every other unchanged; one that does not changes nothing that can be read; whatever happens a restart finds one or the other; what stands on the page in use is not touched; it succeeds unless a flash operation in this very write goes wrong, whatever happened before; and a record that fits is appended in place, the other page left as it was |
| SettingsStore.ErasedWhenFull | dspic_src/settings/store.h:20-31 | in a life without faults a record that fits the page in use is appended to it, and no page erased |
| SettingsStore.Store.ChangePage | dspic_src/settings/store.c:255-325 | the same for a change of page: every type is carried over with the new record, the page in use is untouched, and only the new header makes the switch |
| SettingsStore.Store.FillPage | dspic_src/settings/store.c:255-305 | until its header is written the new page is not one a restart would choose; all types and the new record always fit |
| SettingsStore.Store.WriteHeader | dspic_src/settings/store.c:306-317 | the new page counts exactly from the double word that completes its header, whole |
| SettingsStore.Store.Append | dspic_src/settings/store.c:346-367 | a record appended in place, the CRC last: held if it succeeded, else passed over |
| SettingsStore.Store.WriteWords | dspic_src/settings/store.c:203-227 | double words land in order, all of them if it says so, each one erased and not programmed before |
| SettingsStore.Store.Init | dspic_src/settings/store.c:141-165 | start-up takes the page the image determines, by header and generation, and its tables are those of what is held there |
| SettingsStore.Store.ScanPage | dspic_src/settings/store.c:98-138 | the tables built by the scan are the specified ones |
| SettingsStore.Store.CheckRecord | dspic_src/settings/store.c:66-95 | unreadable, torn or intact, exactly by mark, type, length, room and CRC |
| SettingsStore.Store.Read | dspic_src/settings/store.c:168-186 | byte for byte what is held of the type, unless there is none or it is too long |
| SettingsStore.Store.BuildRecord | dspic_src/settings/store.c:229-252 | the words of a record, two bytes to a word, padded, CRC last |
| StoreFormat.RecordRoundTrip | dspic_src/settings/store.c:229-252 | reading a built record gives its type, length and every byte |
| StoreFormat.RecordInBytes | dspic_src/settings/store.h:14-18 | a record in flash, byte by byte: type and mark, length, data, fewer than four zeros to fill double words, and the CRC of all those bytes, low byte first |
| StoreFormat.HeaderInBytes | dspic_src/settings/store.h:12 | and a header |
| StoreFormat.CrcOfBytes | dspic_src/settings/store.c:29-37 | the CRC of words is the CRC-16 of all their bytes, low byte first |
| StoreFormat.AppendCut | dspic_src/settings/store.h:20-27 | exactly what a restart finds after any number of double words of an append: the old contents, or the new record, or, only if a torn one passes its CRC, that; and free space after it |
| StoreFormat.HalfHeaderInvalid | dspic_src/settings/store.c:47-66 | half a header is never a header, whatever the generation |
| StoreFormat.ChosenNext | dspic_src/settings/store.c:141-165 | the next generation is chosen over the last, wrap-around included |
| StoreTables.Appended | dspic_src/settings/store.c:346-367 | an append cut at any point leaves a journal that can be appended to |
| StoreTables.TakeOver | dspic_src/settings/store.c:306-325 | once the header is written the new page is chosen, with all it holds |
| FlashMemory.AddressRoundTrip | dspic_src/settings/store.c:17-21 | every address is aligned and inside the store, and names its page and word |
| FlashMemory.Flash.WriteDouble | dspic_src/drivers/flash.h:27-32 | the contract assumed of a double word: programmed whole or not at all, once between erases, and reported as its plan has it |
| Crc16.NibbleIsFourBits | common/sml.c:126-141 | the nibble table is four steps of the bitwise CRC, polynomial 0x1021 |
| Crc16.ByteIsEightBits | common/sml.c:126-141 | a byte by the table is eight bits of CRC-16/IBM-3740 |
| Crc16.CrcIsSerial | common/sml.c:130-141 | the CRC of a whole message is that of its bits, one by one, the first bit of each byte the highest |
| Crc16.OneByteCounts | common/sml.c:130-141 | a message with any one byte changed has another CRC |
| Crc16.CheckValue | common/sml.h:29 | the check value of CRC-16/IBM-3740, 0x29B1 for 123456789 |
| Scanner.ScanResumes | common/sml.c:287-338 | a stream may be cut anywhere: scanning goes on from what was left waiting |
| Scanner.NothingLost | common/sml.c:287-289 | every byte dropped is one no frame starts at, however deep in a rejected candidate, and every frame delivered is one, judged against the whole stream |
| Scanner.ScanUnique | common/sml.c:287-338 | there is only one such division of a stream into noise and frames |
| Scanner.ScanProper | common/sml.c:287-338 | the batch scan is such a division, of every byte |
| SmlReceiver.JudgeIsStable | common/sml.c:290-338 | a verdict once reached is not changed by more bytes |
| SmlReceiver.Crc | common/sml.c:130-141 | the CRC of the bytes, by the specification |
| SmlReceiver.SmlParser.Check | common/sml.c:290-338 | the verdict on the front of the buffer, by mark, length and CRC, in that order: that of SmlJudge |
| SmlReceiver.SmlParser.Scan | common/sml.c:290-338 | the first frame of what is buffered, everything before it counted as noise; every byte stays accounted for |
| SmlReceiver.SmlParser.Push | common/sml.c:352-359 | a byte more, never past the buffer; the frames out are those of the batch scan |
| SmlReceiver.SmlParser.Next | common/sml.c:362-366 | the next frame of those held, or all that is held is waited on |
| SmlReceiver.SmlParser.Timeout | common/sml.c:369-379 | what is held counts as noise and the parser starts afresh |
| SmlReceiver.Receive | common/sml.c:287-366 | a stream fed byte by byte and drained gives exactly the frames of its batch scan; every other byte is noise or still held |
| SmlCodec.SwappedTwice | common/sml.c:174-229 | decoding undoes encoding for every layout, on either native byte order |
| SmlCodec.WireIsBig | common/sml.c:174-229 | on the wire every value is highest byte first, from either native byte order |
| SmlCodec.Encode | common/sml.c:174-200 | the wire is the struct field by field, big-endian, and nothing else is written |
| SmlCodec.Decode | common/sml.c:203-229 | the struct is the wire field by field |
| SmlMessages.TableAddsUp | common/sml.c:66-94 | every fixed-length message has a layout of 1, 2 and 4 byte fields that adds up to its length and fits a frame |
| SmlMessages.TableKnows | common/sml.c:66-105 | the messages there are, and which has no fixed length |
| SmlMessages.Frame | common/sml.c:232-253 | the frame of a payload, in place or copied, in a buffer that holds it; refused exactly when too long, and then nothing is written |
| SmlMessages.FrameMessage | common/sml.c:256-268 | the frame of a known fixed-length message, encoded; refused otherwise |
| SmlMessages.FramedIsAccepted | common/sml.c:232-253 | a built frame is taken by the parser whatever follows, and opens to what it was built from |
| SmlMessages.AcceptsExactly | common/sml.c:232-253 | the parser takes exactly the frames: a start is accepted if and only if it is the frame of some class, ID and payload of at most 240 bytes |
| SmlMessages.WaitsExactly | common/sml.c:290-320 | it waits exactly while what it has starts like a frame and is not all of it, or is five bytes, the length half there |
| SmlMessages.DamagedRejected | common/sml.c:322-331 | a frame with any one byte but the length changed is rejected |
| SmlMessages.ExampleTaken | common/sml.c:290-338 | a frame written out, its CRC as the standard gives it, is taken and opened |
| SmlMessages.StreamRoundTrip | common/sml.c:256-366 | a stream of framed messages scans into exactly its frames, with no noise |
| SmlMessages.DecodeMessage | common/sml.c:203-229 | a frame decoded by the table into its struct |
| SmlMessages.Deliver | common/sml.c:256-366 | any list of known messages, each framed by FrameMessage, pushed through a fresh parser and decoded, comes out the same, with zero noise |
| UbxReceiver.JudgesAreSound | dspic_src/gnss/ubx_parser.c:168-264 | a verdict once reached is not changed by more bytes, and what is waited on is shorter than the buffer |
| UbxReceiver.ComputeChecksum | dspic_src/gnss/ubx_parser.c:139-152 | the checksum of section 3.4: CK_A sums the bytes, CK_B the sums, as ChecksumIs has them in closed form |
| UbxReceiver.PlausibleLengths | dspic_src/gnss/ubx_parser.c:17-68 | a header is plausible if its payload fits, and is exactly as long as the fields of its message, MON-VER with whole extensions and CFG-VALGET with anything after its header |
| UbxReceiver.ChecksumIs | dspic_src/gnss/ubx_parser.c:139-152 | CK_A is the sum of the bytes, CK_B the sum of each as many times as there are bytes from it to the end, modulo 256 |
| UbxReceiver.UbxParser.Append | dspic_src/gnss/ubx_parser.c:92-103 | a byte more in the window, compacted if need be, never past the buffer |
| UbxReceiver.UbxParser.Consume | dspic_src/gnss/ubx_parser.c:81-89 | only the window moves |
| UbxReceiver.UbxParser.ProcessFrames | dspic_src/gnss/ubx_parser.c:168-264 | the window is scanned as the batch scan does, frames dispatched as found, the rest waited on |
| UbxReceiver.UbxParser.Feed | dspic_src/gnss/ubx_parser.c:302-314 | after every byte the messages dispatched are those of the batch scan of all that was fed |
| UbxReceiver.UbxParser.CheckTimeout | dspic_src/gnss/ubx_parser.h:17-21 | after the timeout the window is empty, and complete frames held behind a truncated one have been dispatched |
| UbxReceiver.FlushEmpties | dspic_src/gnss/ubx_parser.c:317-329 | a flush leaves nothing, whatever was held |
| UbxReceiver.Stream | dspic_src/gnss/ubx_parser.c:302-314 | a whole stream dispatches exactly the messages of its batch scan |
| UbxConfig.FrameFound | dspic_src/gnss/ubx_encode.c:27-43 | a built frame is taken whole by the parser when its length suits the message, and the message taken out is the one put in |
| UbxConfig.AcceptsExactly | dspic_src/gnss/ubx_parser.c:168-264 | the receiver takes exactly the frames of a length that suits their message, with both checksum bytes |
| UbxConfig.WaitsExactly | dspic_src/gnss/ubx_parser.c:168-264 | and waits exactly for the rest of the sync bytes, of a header, or of such a frame |
| UbxConfig.FlushedExactly | dspic_src/gnss/ubx_parser.c:168-264 | once the stream has gone quiet the same frames are taken, and nothing waited for |
| UbxConfig.AckTaken | dspic_src/gnss/ubx_proto.h:335-341 | the acknowledge of a CFG-VALSET, byte by byte, is taken |
| UbxConfig.KeySizes | dspic_src/gnss/ubx_proto.h:163-173 | a key has the size of its code, as for the flags, bytes, periods and rates the program sets |
| UbxConfig.EncodeFrame | dspic_src/gnss/ubx_encode.c:27-43 | the frame if it fits the capacity, else nothing, and nothing past it is written |
| UbxConfig.CfgMessage.ValsetAdd | dspic_src/gnss/ubx_encode.c:112-133 | accepted exactly while there is room and the key has a size of 1 to 4; a refused add spoils a CFG-VALSET, and is only refused by a CFG-VALGET |
| UbxConfig.CfgMessage.ValgetAdd | dspic_src/gnss/ubx_encode.c:145-152 | accepted exactly while there is room for the key; a refused add spoils a CFG-VALGET, and leaves a CFG-VALSET as it is |
| UbxConfig.ValsetInValget | dspic_src/gnss/ubx_encode.c:112-165 | a CFG-VALGET refused a value is finished with its own key |
| UbxConfig.ValgetInValset | dspic_src/gnss/ubx_encode.c:145-165 | a CFG-VALSET refused a key to poll is finished with its own item |
| UbxConfig.CfgMessage.Append | dspic_src/gnss/ubx_encode.c:66-84 | little-endian bytes after what is there, within the 256 bytes |
| UbxConfig.CfgMessage.Finish | dspic_src/gnss/ubx_encode.c:155-165 | succeeds exactly when something was accepted and nothing refused spoiled it, and the frame is of exactly what was accepted |
| UbxConfig.LeRoundTrip | dspic_src/gnss/ubx_decode.c:268-317 | reading a value back gives it truncated to its bytes |
| UbxConfig.ReadsBack | dspic_src/gnss/ubx_decode.c:282-317 | any list of items set reads back as the same keys, the values truncated to key size, in order, and then the end |
| UbxConfig.ValgetReader.Next | dspic_src/gnss/ubx_decode.c:282-317 | an item, the end, or malformed exactly when no whole item is left |
| UbxConfig.ReadConfiguration | dspic_src/gnss/ubx_decode.c:268-317 | a finished configuration read item by item gives back all that was accepted, and the end |
| Utc.AdvanceCounts | dspic_src/platform/utc.c:11-40 | advancing is moving that many real seconds along the timeline, through an inserted or deleted one |
| Utc.ElapsedInjective | dspic_src/platform/utc.c:11-40 | each second of the timeline happens once, so that fixes the result |
| Utc.AdvanceComposes | dspic_src/platform/utc.c:11-40 | advancing by a then b is advancing by a + b for all a and b, if and only if the label is not flagged as a leap second before the announced one |
| Utc.CountOnAdvances | dspic_src/platform/utc.c:11-40 | n single steps are one advance by n |
| Calendar.ConsecutiveDays | dspic_src/platform/utc.c:84-99 | day 0 is 1970-01-01 and consecutive days, for ever, are consecutive Gregorian dates |
| Calendar.DaysRoundTrip | dspic_src/platform/utc.c:70-99 | the day number of the date of a day is that day |
| Calendar.DateRoundTrip | dspic_src/platform/utc.c:70-99 | the date of the day number of any Gregorian date from 1970 is that date |
| Calendar.YearFound | dspic_src/platform/utc.c:89-90 | the year of an era is found exactly, leap days included |
| Calendar.MachineRange | dspic_src/platform/utc.c:84-111 | within the 32-bit count the day number and the fields of its date fit their types |
| Calendar.DaysFit | dspic_src/platform/utc.c:70-81 | no step of the day number goes below zero or past its type, for any date from 1970 to 2106 |
| Calendar.FromCivilFits | dspic_src/platform/utc.c:114-121 | nor any of the seconds of a valid civil time, which are then exact |
| Calendar.DateFits | dspic_src/platform/utc.c:84-99 | nor any of the date of a 16-bit day |
| Calendar.CivilRoundTrip | dspic_src/platform/utc.c:102-121 | civil time and back is the identity, if and only if a second flagged as a leap second ends a minute |
| Calendar.ValidIsRepresentable | dspic_src/platform/utc.c:133-151 | a civil time is valid exactly when it is real and the 32-bit count can hold it |
| UtcFormat.FormatNs | dspic_src/platform/utc.c:192-250 | from 1 us to 1000 s: the nearest value, with one of its unit at least and under a thousand, digits and decimals four, four figures exactly when below 999.95 s; whole seconds beyond; and it terminates |
| UtcFormat.FiveFigures | dspic_src/platform/utc.c:218-239 | 999.96 s is shown as 1000.0 s, which is not four figures |
| UtcFormat.Carries | dspic_src/platform/utc.c:224-238 | rounding up to another figure moves to one decimal fewer or to the next unit, where it fits |
| SyncSource.SourceTracker.LabelFollowsOn | dspic_src/sync/sync_source.c:39-61 | a label follows on exactly when it is the last one advanced by the edges between, through any announced leap second |
| SyncSource.FollowsIs | dspic_src/sync/sync_source.c:39-61 | without a leap second about it is the last label and as many seconds as edges since |
| SyncSource.SourceTracker.Judge | dspic_src/sync/sync_source.c:92-138 | the whole new record of a source: the verdict, its runs, and the label to follow, kept while every epoch has an edge |
| SyncSource.JudgedOk | dspic_src/sync/sync_source.c:113-136 | the runs always count the verdicts, and a usable verdict is of a labelled edge |
| SyncSource.TrailingAll | dspic_src/sync/sync_source.c:113-136 | a run of n means the last n verdicts were of its kind |
| SyncSource.NeverInconsistent | dspic_src/sync/sync_source.c:39-138 | from any record, a source labelling edges by the timeline under one announcement is never judged INCONSISTENT, but at its first label, if that does not follow the one before |
| SyncSource.JudgeRun | dspic_src/sync/sync_source.c:39-138 | the same of the tracker that judges such a run, report by report: its verdicts and its record are those |
| SyncLog.NoFlapping | dspic_src/sync/sync.c:283-306 | each challenge takeover ends ten epochs in a row, in one uninterrupted stay, in which the same challenger had under half the bound in use; two are at least ten epochs apart |
| SyncLog.HeldWordExact | dspic_src/sync/sync.c:180-193 | the 64-bit arithmetic gives the bound intended, saturated, at every age there is |
| SyncLog.HeldBoundGrows | dspic_src/sync/sync.c:180-193 | the holdover bound never falls as the age grows |
| SyncLog.HeldExpires | dspic_src/sync/sync.c:180-193 | within the 100 ms limit holdover is under 200,000 epochs old |
| Synchroniser.Run | dspic_src/sync/sync.c:715-844 | from start-up, any epochs and requests leave the synchroniser in the state, and with the logs, that the model has for them, so every result of SyncRuns is about it |
| SyncRuns.OnlyAllowed | dspic_src/sync/sync.h:46-69 | in every run each state change is one of the design, from the state the last led to |
| SyncRuns.TakeoversEarned | dspic_src/sync/sync.h:35-40 | in every run each takeover by a challenge ends ten epochs in a row, without a state change between, in which its bound as a candidate was under half the bound in use; two are at least ten epochs apart |
| SyncRuns.StepsEnd | dspic_src/sync/sync.h:71-83 | in every run no free-run step is asked for once something has steered, and the time of day is aligned to once at most |
| SyncRuns.EachPlaced | dspic_src/sync/sync.h:46-69 | in every run ACQUIRE and LOCKED name a source that steers, HOLDOVER the one it holds over, for 200,000 epochs at most, and FREE_RUN none |
| SyncRuns.CountedTime | dspic_src/sync/sync.c:669-706 | however long nothing can be used, the time of day is one utc_advance() from the label it was counted from |
| SyncRuns.LockedToFreeRun | dspic_src/sync/sync.c:507-536 | a run of four epochs from start-up that goes from LOCKED to FREE_RUN |
| SyncRuns.RunGrows | dspic_src/sync/sync.c:364-391 | what a run has logged is never taken back, and each epoch's contest is that of the bounds its choice was made from |
| SyncRuns.NextValid | dspic_src/sync/sync.c:794-844 | one epoch keeps every invariant |
| SyncRuns.UsedIsFit | dspic_src/sync/sync.c:794-844 | the loop is given only a labelled, captured edge of a source that steers, GOOD with a label that follows its last, or an INACCURATE fallback; the time of day is then its label |
| SyncRuns.FaceReady | dspic_src/sync/sync.c:794-811 | by the time of the choice everything asked for is done, the time of day kept but for that, and the RTC aligned to if it is fit |
| SyncRuns.FaceHeard | dspic_src/sync/sync.c:148-176 | the choice is made from the verdicts on this epoch's reports, each GOOD one following its last label |
| SyncRuns.FaceJudged | dspic_src/sync/sync.c:148-176 | each source is judged on its report of this epoch alone, within the limits of its place and use; its phase is how far our epoch was captured after its second, with that sign |
| SyncRuns.AlignedOntoSecond | dspic_src/sync/sync.c:429-452 | in free run, an epoch some ticks after the second of an RTC fit to align to is stepped by as many the other way, which puts it on the second |
| SyncRuns.RestartFits | dspic_src/sync/sync.c:395-420 | a source newly acquired restarts the loop, once, and nothing else does; it is slewed onto only from within half its gate (0.2 us for GNSS, 150 us for NTP), and then exactly if something was being followed or held over, or was at the last resync, and the loop tracks |
| SyncRuns.BackNoWorse | dspic_src/sync/sync.c:538-546 | holdover ends in LOCKED exactly when its source is usable and captured again, with a bound no more than the one in use |
| SyncRuns.FirstLabel | dspic_src/sync/sync.c:632-659 | the time of day is first known once a usable source is labelled: that of the lowest bound, its second or the one after, whichever our epoch is nearer, with its announced leap second or else the link's |
| SyncRuns.FaceSeeds | dspic_src/sync/sync.c:632-648 | any GOOD or INACCURATE source may give the first label |
| SyncRuns.GivenLabel | dspic_src/sync/sync.c:669-696 | the source in use labels the epoch with the nearest second; it is a correction exactly when the epoch before was locked or held over and this is not the next second |
| SyncRuns.ToldFits | dspic_src/sync/sync.c:812-826 | the loop is told to use the source exactly if one is followed, it is GOOD or an INACCURATE fallback, and its edge was captured; with its offset to the nearest tick, and any step of it |
| SyncRuns.AlignsOnly | dspic_src/sync/sync.c:429-452 | no step is asked for in any other case, but for a time set by hand |
| SyncRuns.CandidateIs | dspic_src/sync/sync.c:202-226 | a source is a candidate exactly if it steers and its last three verdicts were GOOD, or it is followed and usable; then with its bound |
| SyncRuns.HoldoverIs | dspic_src/sync/sync.c:202-226 | and holdover while its bound is within 100 ms |
| SyncRuns.FallbackIs | dspic_src/sync/sync.c:250-267 | a fallback is a source that steers whose last three verdicts were GOOD or INACCURATE |
| SyncRuns.BoundInUse | dspic_src/sync/sync.c:270-281 | the bound in use is that of the source followed while it is usable, or that of holdover |
| SyncRuns.LoopLeft | dspic_src/sync/sync.c:566-582 | ACQUIRE ends in LOCKED exactly when the loop tracks and has measured, in an epoch it has not stepped in; LOCKED in ACQUIRE exactly when it does not track |
| SyncRuns.ResyncSlews | dspic_src/sync/sync.c:774-791 | a resync is slewed out of exactly if a source was locked to or held over |
| SyncRuns.StateLeft | dspic_src/sync/sync.c:794-844 | after an epoch: LOCKED only while the loop tracks, ACQUIRE only until it has measured; a steered locked epoch is where holdover starts, and until the next its bound never falls |
| SyncRuns.ChoiceLeft | dspic_src/sync/sync.c:794-844 | a GOOD source is no fallback, and until something steers the epoch is aligned to the RTC if that is fit |
| SyncRuns.Counts | dspic_src/sync/sync.c:669-706 | an epoch with nothing to use counts on by one second, through any leap second |
| SyncRuns.LabelledByHand | dspic_src/sync/sync.c:736-768 | after a time set by hand the next epoch is labelled the nearest second, counted on through any leap second, and stepped; nothing of it is left pending |
| SyncRuns.ResyncRunsFree | dspic_src/sync/sync.c:774-791 | whatever the sources report, the epoch of a resync runs free with nothing held over |
| SyncRuns.FreeRunLeft | dspic_src/sync/sync.c:486-505 | free run is left exactly when the RTC is not being searched and there is a candidate or a fallback, for the best of them |
| SyncRuns.KeptLeft | dspic_src/sync/sync.c:507-517 | a usable source is kept unless the best other candidate wins its challenge |
| SyncRuns.LostLeft | dspic_src/sync/sync.c:518-536 | one that fails leads to holdover exactly while that is within its limit, else to the best other candidate, else to free run |
| SyncRuns.HeldLeft | dspic_src/sync/sync.c:538-557 | holdover leads straight back, to taking its source up again, or to what beats it; else on, until past the limit |
| SyncRuns.UnroutedIs | dspic_src/sync/sync.c:547-550 | it is taken up again exactly when it is the best candidate and not captured |
| SyncRuns.WonAtTen | dspic_src/sync/sync.c:283-306 | a challenge is won exactly in the tenth epoch in a row of the same challenger under half the bound in use |
| SyncModel.BestIsBest | dspic_src/sync/sync.c:229-247 | the candidate chosen has the lowest bound, ties to the earlier; none if there is none |
| SyncModel.FallbackIsBest | dspic_src/sync/sync.c:250-267 | the same of the fallbacks |
| SyncModel.SeedIsBest | dspic_src/sync/sync.c:632-648 | and of the labelled sources that may give the first label |
| SyncModel.QualifiedRun | dspic_src/sync/sync.c:202-226 | a candidate not in use has been GOOD for the last three epochs |
| SyncModel.AgedBound | dspic_src/sync/sync.c:180-193 | ageing never lowers the holdover bound, and within the limit its age is under 200,001 epochs |
| SyncModel.ManualTimeExact | dspic_src/sync/sync.c:736-768 | a time set by hand labels the nearest second, and the step, half a second at most, makes up exactly the difference |
| SyncModel.PhaseIs | dspic_src/sync/sync.c:103-113 | an epoch captured d ticks after an edge k ticks after its second has phase d + k, folded into half a second either way |
| SyncModel.LabelIsNearest | dspic_src/sync/sync.c:609-628 | and is labelled with the nearest second, through any leap second |
| SyncModel.CountsThrough | dspic_src/sync/sync.c:609-628 | what is counted through is the leap second announced, if any |
| SyncModel.StepsOntoSecond | dspic_src/sync/sync.c:447-449 | moved by the step asked for it has phase zero |
| SyncModel.NearestTick | dspic_src/sync/sync.c:89-100 | an offset in ns is taken to the nearest tick |
| SyncModel.GoodWithin | dspic_src/sync/sync.c:156-162 | GOOD is within 10 us for GNSS and 50 ms for NTP to be taken up, 100 us and 100 ms to be kept, and a second for the RTC |
| SyncModel.BoundIs | dspic_src/sync/sync.c:163-167 | the bound of a usable source: three times its uncertainty and a tick for GNSS, 20 us more for NTP, its own for the RTC |
| Synchroniser.Synchroniser.Update | dspic_src/sync/sync.c:794-844 | sync_update() in place: the whole new state is the model's, and the loop is told what the model says: whether to use the source, its offset, and any step of it |
| Synchroniser.Synchroniser.BestSource | dspic_src/sync/sync.c:229-247 | the loop finds the candidate with the lowest bound, ties to the earlier |
| Synchroniser.Synchroniser.FallbackSource | dspic_src/sync/sync.c:250-267 | and the fallback with the lowest |
| Synchroniser.Synchroniser.Challenge | dspic_src/sync/sync.c:283-306 | the challenger and its run in place, and whether it has won |
| Synchroniser.Synchroniser.Enter | dspic_src/sync/sync.c:364-391 | the state change in place: logged, any challenge over, and a fallback only on the same source |
| Synchroniser.Synchroniser.AcquireSource | dspic_src/sync/sync.c:399-420 | the loop is restarted, slewing exactly when it tracks and the epoch is within half the gate |
| Synchroniser.Synchroniser.AlignToTimeOfDay | dspic_src/sync/sync.c:429-452 | the epoch is stepped onto the RTC in free run, the first epoch it is fit, as AlignedOntoSecond has it |
| Synchroniser.Synchroniser.WaitsForRtc | dspic_src/sync/sync.c:457-474 | waits exactly while, soon after start-up, the RTC has a time but no edge |
| Synchroniser.Synchroniser.FollowFreeRun | dspic_src/sync/sync.c:486-505 | the case of free run in place |
| Synchroniser.Synchroniser.FollowTracking | dspic_src/sync/sync.c:507-536 | the cases of ACQUIRE and LOCKED in place |
| Synchroniser.Synchroniser.FollowHeld | dspic_src/sync/sync.c:538-557 | the case of HOLDOVER in place |
| Synchroniser.Synchroniser.FollowSources | dspic_src/sync/sync.c:479-560 | follow_sources() in place, in all four states |
| Synchroniser.Synchroniser.FollowLoop | dspic_src/sync/sync.c:566-582 | follow_loop() in place |
| Synchroniser.Synchroniser.FollowHoldover | dspic_src/sync/sync.c:587-604 | follow_holdover() in place |
| Synchroniser.Synchroniser.KeepTime | dspic_src/sync/sync.c:669-706 | the label given, counted or seeded, and a correction exactly when a locked one is not the count |
| Synchroniser.Synchroniser.SeedTime | dspic_src/sync/sync.c:632-659 | the loop finds the labelled source with the lowest bound, and takes its label |
| Synchroniser.Synchroniser.ApplyManualTime | dspic_src/sync/sync.c:741-768 | once, only in free run and before anything has steered |
| Synchroniser.Synchroniser.ApplyResync | dspic_src/sync/sync.c:774-791 | every source judged afresh, holdover dropped, free running |
| I2cBus.I2cMaster.Submit | dspic_src/drivers/i2c1.c:219-252 | accepted exactly when there is something to address, a buffer for each length, and it is not in the queue; it goes last, and on the bus at once if that is idle |
| I2cBus.I2cMaster.Interrupt | dspic_src/drivers/i2c1.c:347-436 | an acyclic list of distinct transfers, tail last, each queued or busy exactly while in it and only the head busy; a transfer leaves only at its stop or by a collision, in submission order; one that ends OK went whole over the wire, every byte of it acknowledged; one refused stops at once, for its address exactly if that was the byte refused; every event brings it nearer its end; no index passes a length |
| I2cBus.I2cMaster.Service | dspic_src/drivers/i2c1.c:269-302 | a transfer on the bus for more than 20 ms leaves with a timeout, and the next starts; so it does after a fault |
| I2cBus.I2cMaster.ExpiredIs | dspic_src/drivers/i2c1.c:283-290 | longer than 20 ms since the service first saw it, through the wrap-around |
| I2cBus.I2cMaster.Progress | dspic_src/drivers/i2c1.c:370-429 | each state sends the next byte or event of the transfer, and logs the acknowledge of the last; a byte refused stops it, with NACK_ADDRESS exactly when it was the first |
| I2cBus.I2cMaster.Finish | dspic_src/drivers/i2c1.c:160-173 | the head leaves once, with its result, and the list stays whole |
| I2cBus.I2cMaster.StartNext | dspic_src/drivers/i2c1.c:142-156 | the next transfer starts, or the bus is idle exactly when the queue is empty |
| I2cBus.Stopped | dspic_src/drivers/i2c1.c:430-433 | what a transfer that stopped put on the wire: all of it, every byte acknowledged, if OK; else all up to the one byte refused, which is its address exactly if the result says so |
| UartRings.CountIs | dspic_src/drivers/uart1.c:80-89 | the masked difference of the indices is the length of the queue, below the size |
| UartRings.PutBeyond | dspic_src/drivers/uart1.c:283-296 | a byte put beyond the queue does not disturb it, whatever the interrupt has taken |
| UartRings.Transmitter.FillFifo | dspic_src/drivers/uart1.c:105-115 | bytes move to the hardware in order until the ring is empty or its FIFO full, and some do if there are any and there is room |
| UartRings.Transmitter.Interrupt | dspic_src/drivers/uart1.c:453-461 | and the interrupt goes off exactly when the ring is empty |
| UartRings.Transmitter.FillMasked | dspic_src/drivers/uart1.c:346-358 | from the foreground only with the interrupt off |
| UartRings.Transmitter.StartTx | dspic_src/drivers/uart1.c:92-102 | whatever the interrupt did since the bytes were published, it will run for them: no byte is left behind |
| UartRings.Transmitter.Enqueue | dspic_src/drivers/uart1.c:283-306 | with interrupts between any two steps, what is sent, in the FIFO and queued is always exactly what was accepted |
| UartRings.Transmitter.Write | dspic_src/drivers/uart1.c:309-322 | all or nothing, and never refused what fitted at the call |
| UartRings.Transmitter.WriteSome | dspic_src/drivers/uart1.c:325-343 | the first so many bytes, at least what fitted at the call |
| UartRings.Transmitter.Poll | dspic_src/drivers/uart1.c:346-358 | the interrupt's work from the foreground, with it masked, keeps all of this and gets on with it |
| UartRings.Receiver.Receive | dspic_src/drivers/uart1.c:399-449 | a good byte with room goes in; a damaged one, or one without, is dropped and leaves that error pending with the others |
| UartRings.Receiver.Pop | dspic_src/drivers/uart1.c:203-216 | the oldest byte, whatever comes in meanwhile; bytes come out in order, and all of them while no error is pending |
| UartRings.Receiver.Recover | dspic_src/drivers/uart1.c:249-264 | every error pending is taken, once, and the queue goes with them; with none nothing is |
| RtcReckoning.FloorDiv | dspic_src/sync/source_rtc.c:112-115 | rounds down, in truncating division |
| RtcReckoning.ReckonedNext | dspic_src/sync/source_rtc.c:118-126 | n seconds on are start + n x nominal + floor(n x rate / 256): no rounding accumulates |
| RtcReckoning.RtcSource.CountOn | dspic_src/sync/source_rtc.c:813-832 | counted on to the latest of its seconds at or before our epoch, exactly, or lost after more than three |
| RtcReckoning.RtcSource.Report | dspic_src/sync/source_rtc.c:833-851 | the second nearest the predicted offset, and the rest within half a second; the bound is the one predicted with half the resolution of its second |
| RtcReckoning.RtcSource.Found | dspic_src/sync/source_rtc.c:365-393 | its second placed afresh; the edges run on to the nearest second |
| RtcReckoning.RtcSource.LearnRate | dspic_src/sync/source_rtc.c:133-157 | the rate corrected by the error since the baseline, and valid from then on; kept if it is impossible or the time too short or long |
| RtcReckoning.LearnedRateFits | dspic_src/sync/source_rtc.c:133-157 | the new rate counted on from the baseline leads to where the second was found, to within its resolution |
| RtcReckoning.SteadyRateLearned | dspic_src/sync/source_rtc.c:133-157 | a rate the RTC has kept since the baseline is learnt, to within two units of it |
| RtcReckoning.DriftLimited | dspic_src/sync/source_rtc.c:160-176 | checked as often as it asks, the RTC stays within the limit at exactly the rates given, and at any other goes past it by less than 21,600 ticks |
| RtcReckoning.DriftsPast | dspic_src/sync/source_rtc.c:160-176 | one of those others |
| RtcReckoning.PredictionSound | dspic_src/sync/source_rtc.c:278-299 | if the anchor was within its bound and each second since within the allowance of the learnt rate, less 1 ns in all, the second now is within the bound predicted, until that saturates |
| RtcReckoning.PredictedBound | dspic_src/sync/source_rtc.c:278-299 | the bound grows by exactly 10 ppm of the time from the anchor, 500 until the rate is learnt, until it saturates |
| RtcReckoning.PredictionFits | dspic_src/sync/source_rtc.c:257-299 | no step of the prediction overflows 64 bits |
| RtcReckoning.AnchorSound | dspic_src/sync/source_rtc.c:257-272 | the bound of an anchor holds wherever in the search's gap the increment was, if and only if the gap is even and the bound not cut off |
| RtcReckoning.FoundLate | dspic_src/sync/source_rtc.c:257-272 | a second found some ticks after our epoch, which is some seconds later by UTC, is late by the two together |
| RtcReckoning.TrueRateIs | dspic_src/sync/source_rtc.c:291-293 | its rate against true seconds is its own less our oscillator's, to a 1/256 of a tick |
| RtcReckoning.WidenedSound | dspic_src/sync/source_rtc.c:317-332 | the bound reported holds of a second that starts anywhere within half its resolution of where it is shown, if and only if that is even and the bound not cut off |
| GnssEpochs.DerivedTime | dspic_src/gnss/gnss_epoch.c:43-88 | in Unix seconds the value of a plausible time is kept: its nearest second and what is left over |
| GnssEpochs.TimeValidIs | dspic_src/gnss/gnss_epoch.c:43-88 | a time is valid exactly if the receiver vouches for it, it is a real one from 2020 to 2105, and its fraction is within 100 ms of its second, the one before or the one after |
| GnssEpochs.LabelledOnTimeline | dspic_src/gnss/gnss_epoch.c:43-88 | in real seconds, through any leap second, it is kept if and only if the fraction does not round across it |
| GnssEpochs.BesideInserted | dspic_src/gnss/gnss_epoch.c:43-88 | an instance that is not: 50 ms before an inserted second |
| GnssEpochs.Assembler.AddStatus | dspic_src/gnss/gnss_epoch.c:184-197 | kept with what its epoch has already; published exactly when the other part is there, once, with both; ignored for the epoch published |
| GnssEpochs.Assembler.AddTimeUtc | dspic_src/gnss/gnss_epoch.c:200-213 | the same from the other side |
| GnssEpochs.Assembler.Publish | dspic_src/gnss/gnss_epoch.c:91-130 | the latest edge is the epoch's own if it is recent and no epoch has had it |
| GnssEpochs.Assembler.AddClock | dspic_src/gnss/gnss_epoch.c:216-229 | joins the epoch of its own time of week, published or not, and leaves the rest of it |
| GnssEpochs.Assembler.AddPosition | dspic_src/gnss/gnss_epoch.c:232-245 | joins the epoch of its own time of week, published or not, and leaves the rest of it |
| GnssEpochs.Assembler.End | dspic_src/gnss/gnss_epoch.c:248-269 | the published epoch is final, an incomplete one dropped |
| GnssEpochs.PairPublished | dspic_src/gnss/gnss_epoch.c:133-213 | once both required parts of an epoch have come in, in either order, with its other parts or messages of the last epoch between, it is published, once, with them |
| GnssEpochs.EdgeIsOwn | dspic_src/gnss/gnss_epoch.c:91-130 | the latest edge is taken as the epoch's own exactly if it was valid, seen less than 950 ms before, and has labelled no epoch published |
| GnssEpochs.PartJoins | dspic_src/gnss/gnss_epoch.c:133-269 | whatever an epoch is sent it has, published or not; once published its required parts, time and edge stay |
| GnssEpochs.EachWhole | dspic_src/gnss/gnss_epoch.c:133-269 | for any messages in any order, every part of a published epoch is a message received and has its time of week, and if the PPS count never goes back no edge is labelled by two epochs |
| GnssEpochs.Assemble | dspic_src/gnss/gnss_epoch.c:133-269 | the same of the assembler fed any run of messages: it is left as the model has it for them |

## Left out

- FlashMemory.Flash.WriteDouble: a double word that the flash says failed but that landed, and one it says
  landed but that did not, are not modelled; the first could leave a record, or a new header, that the store was told was not written.
- SettingsStore.Store.Read: a destination that is NULL is not modelled.
- SmlCodec.Encode: a struct is its bytes and the native byte order; how a compiler lays out C fields is not modelled.
- SmlReceiver.SmlParser.Timeout: when to call it (the caller's clock) is not modelled.
- UbxReceiver.UbxParser.Feed: the handler is a log of messages, so it cannot call back into the parser.
- UbxReceiver.UbxParser.CheckTimeout: the counters of false syncs and unexpected messages are not modelled.
- Synchroniser.Synchroniser.Update: the control loop is arbitrary, so nothing is said of the phase it reaches.
- Synchroniser.Synchroniser.Enter: the ring of the last eight transitions is an unbounded log, and the verdict in each is left out.
- UtcFormat.FormatNs: the result is its parts, not the characters; the one interval whose negation overflows is excluded.
- I2cBus.I2cMaster.Service: bus recovery itself (the pins, its delays) is not modelled, nor the start stamp.
- UartRings.Transmitter.Write: the UART stays enabled or disabled; what disabling it does to the bytes in the hardware is not modelled.
- RtcReckoning.RtcSource.Report: a write in progress and an epoch without a capture are not modelled.
- GnssEpochs.EachWhole: a run of 2^32 PPS edges or more, in which an edge has the number of an earlier one, is left out.
- Registers, pins, clocks, SPI, PWM and generated code: hardware only.
- `timing/*`: the control loop is an oracle.
- `ui/*`, `console/*`, every `*_print` and `text.c`: formatting and menus.
- `settings.c` and `esp_link.c`: field by field mappings over the store and the SML codec.
- The PCF8563 and VEML6040 transactions, searching for the RTC's second and writing it at an aligned moment: device behaviour and real time.
- Statistics counters and diagnostics, except the noise and frame counts of the SML parser.
- `sync_uncertainty()`, the rankings for reports, and `tzinfo_service.py`.
