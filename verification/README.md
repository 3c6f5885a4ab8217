# Verified model of the bus recorder firmware

The firmware samples a bus at 1 kHz, logs every second of samples on an eMMC card, watches for alarms,
copies the three seconds around an alarm to NOR flash, answers requests over TCP and prints its
diagnostics through SEGGER RTT. This project models the parts of it whose correctness is not visible
in any single function and proves what they promise:

| file | what it models |
|---|---|
| `Bytes.dfy`, `RingIndex.dfy`, `Records.dfy` | 32-bit arithmetic, block moves, ring offsets, the records that are written by casting structs to bytes |
| `RttInterleaving.dfy` | the RTT up-channel as a step system: writer and reader run byte by byte in any interleaving, each with a stale copy of the other's offset |
| `RttBuffer.dfy`, `RttOverwrite.dfy` | the ring as an object: five write paths and two read paths against one bounded FIFO; the overwriting write and the exact bound up to which it keeps the newest data |
| `RttTerminal.dfy` | sixteen terminals multiplexed over channel 0, with the host's decoder |
| `Emmc.dfy`, `NorFlash.dfy`, `Eeprom.dfy` | byte access on 512-byte blocks, 256-byte program pages and 16-byte EEPROM pages, each against a flat byte array |
| `SampleLog.dfy`, `LogLookup.dfy` | the circular sample log with its index area, its RAM index, lookup and restart |
| `AlarmProtocol.dfy`, `AlarmStore.dfy`, `AlarmRecord.dfy` | debounce and save protocol of three tasks, the alarm store on flash, and both together with the log |
| `Startup.dfy`, `AlarmSlots.dfy`, `PowerLoss.dfy` | the start from the stored configuration record; the chip slot by slot, also where it is written twice; the whole recorder with power losses at any moment |
| `AdcCache.dfy` | the item cache between sampler and logger |
| `Wire.dfy`, `RelayQueue.dfy`, `SampleResponse.dfy` | checksummed frames; the request queue and its internal frames; the 848-byte responses and the peer that reads them |
| `Calendar.dfy` | dates, timestamps, BCD and the day of the week |
| `Printf.dfy`, `PrintfReading.dfy` | the number printers, for every precision and every 32-bit value, on a buffer that is flushed when full; reading back what they print |

State that the C code updates in place is a class with methods; each method is proved against a function
of the old state, and the system properties are lemmas about those functions and about runs of them.
Devices are their flat contents; mutex-protected calls are atomic steps. Where a failed mutex take is
part of the property it is a parameter (`granted`) or an event (`Missed`).

To verify the project: `dafny verify dfyconfig.toml`.

## Where the code does not do what it is meant to

These are proved about the code as it is:

- `WriteWithOverwriteNoLock` keeps the newest data exactly for fewer than (Size - WrOff) + (Size - 1) bytes.
  Each lap after the first uses Size - 1 cells, so the last cell goes stale (`KeepsNewestIff`, `LosesNewest`).
- It ends exactly if the ring has more than one byte or at most one byte is written (`OverwriteEndsIff`), and
  a blocking write of anything into a ring of one byte stays in its loop (`BlockedForever`).
- `SEGGER_RTT_GetBytesInBuffer` is right exactly while the content does not wrap (`GetBytesInBuffer`).
- `calculateDayOfWeek` is right exactly unless Zeller's sum is negative and not a multiple of seven:
  for 2000-03-01 it returns -4 (`DayOfWeekIff`, `MarchFirst2000`).
- A timestamp survives the trip through BCD exactly from 2000 on, because the year byte wraps
  (`ThereAndBack`, `BcdRoundTrip`).
- The number printers emit max(precision, digits) characters exactly up to a precision of 10 decimal or 8
  hexadecimal digits (`PrecisionIff`); a precision of 11 gives ten characters (`ElevenDigits`), and from 33
  decimal or 9 hexadecimal digits on they divide by zero (`DividesByZeroIff`).
- INT_MIN is padded as if it had one digit; when its length is right all the same says `IntMinIff`.
- After a refused flush the padding behind a left-justified number sends the refused buffer again: if and only if
  the field is wider than the number and a flush within its digits, but none before them, is not taken whole
  (`PrintUnsigned`, `PrintInt`). What the sink then has is no prefix of the text unless the text repeats itself
  there (`SentIsPrefixIff`): of a 10 in a field of four, a buffer of two and a sink that first takes one character,
  it has "110" (`SentTwice`).
- `Storage_Read_AlarmInfo` finds the timestamp 0xFFFFFFFF in erased index cells (`ReadAlarmInfo`).
- A restart in the middle of an alarm programs the next message over the old one (`RestartIff`), and so does every
  slot that was begun and is not covered by the saved count when power fails: exactly these alarms are written
  twice (`LostIff`), and hold the new bytes only where those clear bits (`OverwrittenIff`).
- `Storage_Clear_AdcData` leaves the RAM index alone: after a clear the log is empty exactly if that was
  (`ClearHolds`, `ClearGeometry`), and otherwise the up to 63 seconds in it are still found (`ReadAdcData`).
- On later laps end_time is that of the newest second exactly unless the flush begins a lap, and block_num
  passes 7500 (`FlushTimes`).
- Alarm 640 sends the store back to the first cells without an erase (`FullStartsOver`).
- A tick that finds the request of the tick before still in the alarm queue breaks the save protocol exactly
  if both requests find their second (`UndrainedInRun`, `UndrainedIff`). The second is then stored twice and the
  next one is passed over; if it was the last, an extra part and an index entry of the old alarm take the cells of the
  next one, and no history of alarms explains the chip any more (`DoubledLast`).
- `fm24c_read` is right for all contents exactly if it stays inside a 256-byte block (`ReadRightIff`).
- With an empty RAM index `Storage_Read_AdcData` reads the word in front of the table. It holds
  item_index and cleared padding, hence 0, and the lookup goes on to the card as intended (`ReadAdcData`).
- `initCirQueue` clears four bytes of the slots; that free slots are zero rests on static initialisation
  and on `deQueue` (`CirQue`).

`sizeof(AlarmMsg_t)` is taken as 32 bytes, as the layout constants of `app/storage_manage.h` have it, that is
with one-byte enumerations. Signed overflow is taken to wrap, which only INT_MIN shows.

## Model

| member | source | states |
|---|---|---|
| RttInterleaving.NoByteLostOrOverwritten | RTT/SEGGER_RTT.c:368-410 | in every interleaving of writer and reader steps, delivered bytes followed by the ring's content are the published input, published is accepted but for the running call, the ring never overfills, and no step changes a byte between RdOff and WrOff |
| RttInterleaving.CallIsFifoWrite | RTT/SEGGER_RTT.c:1104-1125 | in every interleaving a non-blocking write call publishes what a bounded FIFO would take, given the content at its load of RdOff: in skip mode all of the data or nothing, in trim mode the longest prefix that fits |
| RttInterleaving.CallIsFifoRead | RTT/SEGGER_RTT.c:567-640 | in every interleaving a read call delivers exactly the first min(room, used) bytes of the content at its load of WrOff |
| RttInterleaving.BlockingCallWrites | RTT/SEGGER_RTT.c:368-410 | a blocking write that returns has published all of its data |
| RttInterleaving.BlockingLoad | RTT/SEGGER_RTT.c:379-388 | each blocking round takes on the longest part that fits before the end of the ring, so it is empty only while the ring is full |
| RttInterleaving.EachStepCounts | RTT/SEGGER_RTT.c:1094-1143 | a non-blocking write returns after at most its length and two steps of its own |
| RttInterleaving.EachReadCounts | RTT/SEGGER_RTT.c:567-640 | a read returns after at most min(room, Size - 1) + 1 steps of its own |
| RttInterleaving.RunInv | RTT/SEGGER_RTT.c:567-640 | every state of every run satisfies the invariant that bounds how stale a loaded offset can be |
| RttInterleaving.StepKeeps | RTT/SEGGER_RTT.c:428-483 | each single step, of the straight, the wrapping and the blocking writer and of the reader, keeps that invariant and all live bytes |
| RttInterleaving.NeitherSideWaits | RTT/SEGGER_RTT.c:549-555 | in every reachable state each side has a step of its own whose addresses are in bounds |
| RttInterleaving.ReadChunks | RTT/SEGGER_RTT.c:586-634 | the two copies of a read, with the unsigned offset difference, cover exactly min(room, used) bytes in ring order |
| RttInterleaving.BlockedForever | RTT/SEGGER_RTT.c:379-408 | in a ring of one byte a blocking write of one byte or more is never idle again, in any run |
| RttInterleaving.OneByteRing | RTT/SEGGER_RTT.c:384 | because nothing is ever published there |
| RttBuffer.Ring.GetAvailWriteSpace | RTT/SEGGER_RTT.c:520-536 | free space is Size - 1 minus the queued bytes |
| RttBuffer.Ring.GetBytesInBuffer | RTT/SEGGER_RTT.c:2073-2091 | equals the number of queued bytes if and only if the content does not wrap |
| RttBuffer.Ring.WriteNoCheck | RTT/SEGGER_RTT.c:430-483 | data that fits is appended, stored cell by cell around the end, nothing else changes |
| RttBuffer.Ring.BlockingRound | RTT/SEGGER_RTT.c:378-406 | one round appends the largest prefix that fits before the end of the ring |
| RttBuffer.Ring.WriteBlocking | RTT/SEGGER_RTT.c:368-410 | everything is written, with as many rounds that only wait as the host likes if it reads again and again; what the host took followed by the content is old content followed by the data; data that already fits needs at most two rounds and no host |
| RttBuffer.Ring.Read | RTT/SEGGER_RTT.c:567-640 | removes exactly the first min(BufferSize, used) bytes and returns them |
| RttBuffer.Ring.Fetch | RTT/SEGGER_RTT.c:659-729 | the bytes and the new RdOff of a read call, also where WrOff - RdOff underflows |
| RttBuffer.Ring.WriteNoLock | RTT/SEGGER_RTT.c:1094-1143 | the return value, the prefix of the data appended and, unless it blocks, the cells and the offsets, for every flag value |
| RttBuffer.TakenMeans | RTT/SEGGER_RTT.c:1104-1138 | that prefix is all or nothing in skip mode, the longest that fits in trim mode, all of it in blocking mode and nothing otherwise |
| RttBuffer.Ring.WriteSkipNoLock | RTT/SEGGER_RTT.c:928-988 | same decision, same cells and same WrOff as WriteNoLock in skip mode |
| RttBuffer.Ring.PutCharSkipNoLock | RTT/SEGGER_RTT.c:1259-1289 | one character is queued if and only if there is room |
| RttBuffer.Ring.WriteWithOverwriteNoLock | RTT/SEGGER_RTT.c:827-898 | wherever the loop ends: below the bound, and in a ring of one byte, the queue is the last min(Size - 1, used + n) bytes of old content followed by data; above it, what the laps leave |
| RttBuffer.Ring.OverwriteLaps | RTT/SEGGER_RTT.c:863-897 | the write loop leaves the cells and the WrOff of the lap function |
| RttBuffer.Ring.PushRdOff | RTT/SEGGER_RTT.c:840-858 | RdOff moves past what is about to be overwritten, modulo Size |
| RttOverwrite.KeepsNewestWithinBound | RTT/SEGGER_RTT.c:840-897 | for n < (Size - WrOff) + (Size - 1) the queue is the newest Size - 1 bytes |
| RttOverwrite.OverwriteEndsIff | RTT/SEGGER_RTT.c:857-897 | the loop ends if and only if the ring has more than one byte or there is at most one to write |
| RttOverwrite.LoopEnds | RTT/SEGGER_RTT.c:857-897 | where it ends, the turns have stored what the lap function says |
| RttOverwrite.KeepsNewestIff | RTT/SEGGER_RTT.c:895 | a length keeps the newest data for all contents if and only if it is below that bound |
| RttOverwrite.StaleLastCell | RTT/SEGGER_RTT.c:863-897 | from the bound on, the last cell keeps its byte of the first lap |
| RttOverwrite.LosesNewest | RTT/SEGGER_RTT.c:895 | data of such a length for which the queue is not the newest data |
| Bytes.Sub32IsModular | RTT/SEGGER_RTT.c:613 | the difference used for a read length is the one modulo 2^32 |
| RingIndex.QueueAfterRead | RTT/SEGGER_RTT.c:700-722 | advancing RdOff by k drops the first k bytes of the queue and returns them |
| RingIndex.StoredAppends | RTT/SEGGER_RTT.c:444-480 | storing into free cells and advancing WrOff appends |
| RttTerminal.CallDecodes | RTT/SEGGER_RTT.c:1964-2037 | after any single call the host is at rest on the active terminal, with the call's text added on its own terminal only |
| RttTerminal.RunDecodes | RTT/SEGGER_RTT.c:1915-1945 | over every run of SetTerminal, TerminalOut and channel-0 writes in any mode, decoding all that was enqueued gives the active terminal, no open escape and the intended screens |
| RttTerminal.OnlyOnItsTerminal | RTT/SEGGER_RTT.c:1964-2037 | every byte on a screen belongs to a call for that terminal |
| RttTerminal.OutIsFifo | RTT/SEGGER_RTT.c:1981-2034 | a TerminalOut call enqueues switch, text and switch back all or nothing in skip mode, with the longest prefix of the text that fits in trim mode, whole in blocking mode, and its status counts the text |
| RttTerminal.SetIsFifo | RTT/SEGGER_RTT.c:1925-1944 | a switch goes out if there is room or the call blocks, and then and only then the active terminal changes |
| RttTerminal.Channel0.SetTerminal | RTT/SEGGER_RTT.c:1915-1945 | the switch pair goes out whole or not at all, and the active terminal changes exactly with it |
| RttTerminal.Channel0.TerminalOut | RTT/SEGGER_RTT.c:1964-2037 | switch, text or a prefix, switch back, or nothing at all, and the status of every case |
| RttTerminal.Channel0.PostTerminalSwitch | RTT/SEGGER_RTT.c:498-504 | the pair is enqueued whole |
| RttTerminal.Channel0.Write | RTT/SEGGER_RTT.c:1094-1143 | a channel-0 write enqueues exactly its text |
| Emmc.CutRange | BSP/src/BSP_EMMC.c:2141-2156 | head, middle and tail are adjacent, aligned and add up to the range, although address 0 also means "no last block" |
| Emmc.Card.WriteBytes | BSP/src/BSP_EMMC.c:2129-2221 | exactly [addr, addr + size) becomes the data |
| Emmc.Card.ReadBytes | BSP/src/BSP_EMMC.c:1929-2031 | the buffer's first size bytes become the range, the rest stays |
| Emmc.Card.VerifyBytes | BSP/src/BSP_EMMC.c:2599-2749 | true if and only if the range is not empty and equals the buffer |
| Emmc.Card.PatchBlock | BSP/src/BSP_EMMC.c:2162-2168 | read, patch and write back changes only the patched bytes |
| Emmc.ThreeWrites | BSP/src/BSP_EMMC.c:2160-2216 | writing head, middle and tail one after the other is writing the range |
| Emmc.ThreeReads | BSP/src/BSP_EMMC.c:1963-2023 | fetching head, tail and then middle fills the range |
| NorFlash.ErasedTakes | BSP/src/BSP_GD55B01.c:229-246 | programming an erased cell stores the value |
| NorFlash.AndIsBitwise | BSP/src/BSP_GD55B01.c:229-246 | a programmed cell keeps exactly the bits that were set and are to be set |
| NorFlash.ProgramErased | BSP/src/BSP_GD55B01.c:255-270 | on erased cells a write is plain storing |
| NorFlash.Flash.PageProgram | BSP/src/BSP_GD55B01.c:229-246 | more than a page is refused; up to a page is programmed around the end of the addressed page |
| NorFlash.StaysInPage | BSP/src/BSP_GD55B01.c:261-264 | a count that does not leave the page is programmed where it was asked for |
| NorFlash.Flash.WriteData | BSP/src/BSP_GD55B01.c:255-270 | exactly [addr, addr + count) is ANDed with the data, however many pages it crosses |
| NorFlash.Flash.ReadData | BSP/src/BSP_GD55B01.c:280-290 | the bytes asked for |
| Eeprom.Chip.Write | BSP/src/BSP_FM24C02.c:94-126 | on a chip that wraps inside 16 bytes, exactly [addr, addr + len) is stored |
| Eeprom.Chip.Read | BSP/src/BSP_FM24C02.c:59-88 | the bytes the chip sends, which are those asked for inside one 256-byte block |
| Eeprom.ReadRightIff | BSP/src/BSP_FM24C02.c:75-81 | they are right for all contents if and only if the read stays inside one block |
| Eeprom.Chip.WordAddress | BSP/src/BSP_FM24C02.c:34-37 | device address and word address together name the cell |
| Eeprom.SaveAndLoad | app/msg_parse.c:79-95 | a record written inside one block is read back |
| SampleLog.StoreGeometry | app/storage_manage.c:69-105 | one stored second keeps addr = 125 * (64 * curr_block + item_index) and index_addr, and both rings wrap on the same step |
| SampleLog.GeometryForever | app/storage_manage.c:69-105 | after any number of seconds and laps the geometry holds and the position is the count modulo 480000 |
| SampleLog.StoreAreas | app/storage_manage.h:17-27 | a changed byte lies in the data block written, inside the data area, or in the index block written, inside the index area |
| SampleLog.BootGeometry | app/storage_manage.c:453-463 | the function alone establishes the geometry if and only if the flag is FIRST_ON or NEXT_ON |
| Startup.AlwaysGeometry | app/msg_parse.c:721-758 | behind `system_init` it is established for every stored flag |
| Startup.StartIff | app/msg_parse.c:724-758 | after a start with any stored record: the log holds the seconds the record covers if and only if the start is not a first one or the record has no position; the alarm store holds its alarms if and only if it was a factory start or nothing behind them has been programmed |
| Startup.ResumedMeans | app/msg_parse.c:724-758 | a record in use, or of a first start after calibration, resumes 64 * block_num seconds and alarm_num alarms, any other nothing |
| Startup.ClearData | app/msg_parse.c:240-247 | the clear-data request: no alarms on an erased chip; the sample log empty if and only if its RAM index was, and otherwise with just the seconds of that index |
| Startup.StartTask | app/app_task.c:63-77 | both objects, the chip and the stored record after `system_init` and the two initialisations |
| SampleLog.ClearGeometry | app/storage_manage.c:421-439 | clearing keeps it if and only if the RAM index is empty |
| SampleLog.ClearHolds | app/storage_manage.c:421-439 | clearing leaves an empty log if and only if the RAM index was empty |
| SampleLog.ClearLeaves | app/storage_manage.c:421-439 | and otherwise the RAM index of the last seconds, with their data |
| SampleLog.FlushTimes | app/storage_manage.c:86-109 | a flush that begins a later lap sets str_time to the oldest second left; end_time is the newest second's if and only if it is no such flush; block_num stays within 7500 only on the first lap and at its end |
| SampleLog.StoreHolds | app/storage_manage.c:60-120 | on the first lap a stored second extends the log by exactly that entry |
| SampleLog.FlushIndexes | app/storage_manage.c:83-85 | a full RAM table written to the card indexes its 64 seconds and keeps the others |
| SampleLog.RestartHolds | app/storage_manage.c:456-463 | a restart from any earlier saved position recovers exactly the seconds it covers |
| SampleLog.TornHolds | app/storage_manage.c:70-85 | power lost inside a store, whatever it leaves in the blocks being written, costs only what was not saved |
| SampleLog.AlwaysConsistent | app/storage_manage.c:99-110 | over every run of stores, saves, power losses between calls and inside a store, on the first lap, the log is exactly its history |
| SampleLog.AnythingCanHappen | app/storage_manage.c:60-120 | in every consistent state a save, a power loss and, with room, any later second and a torn store of it can follow |
| SampleLog.SavedIsDurable | app/storage_manage.c:106-110 | every second a saved position covers stays in the log through all later stores and power losses, torn stores included |
| SampleLog.SaveCovers | app/storage_manage.c:106-110 | a save covers every second but the fewer than 64 of the RAM index, through all that comes later |
| SampleLog.HoldsWhatIsTold | app/storage_manage.c:60-120 | over every run of the first lap the log is the plain list its events tell: seconds appended, a save covering whole index blocks, a loss going back to the last save |
| SampleLog.AdcObject.constructor | app/storage_manage.c:441-466 | the object for every value of the flag |
| SampleLog.AdcObject.WriteAdcData | app/storage_manage.c:60-120 | object and card after the call |
| SampleLog.AdcObject.NextTable | app/storage_manage.c:86-109 | start and end time, indices and configuration after a flush, with the reload of later laps |
| SampleLog.AdcObject.ReadAdcData | app/storage_manage.c:122-183 | on the first lap 0 with exactly the stored bytes if and only if the second was stored, else -1 and an untouched buffer, whether the entry is in RAM or on the card; after a clear, 0 if and only if the second is in the RAM index, so -1 for all if that is empty |
| SampleLog.AdcObject.ReadFromCard | app/storage_manage.c:154-176 | the ten-block search finds an entry if and only if there is one |
| SampleLog.AdcObject.ReadFromRam | app/storage_manage.c:142-152 | the same for the RAM table |
| SampleLog.AdcObject.ClearAdcData | app/storage_manage.c:421-439 | what is reset and what is not |
| Records.TableRoundTrip | app/storage_manage.c:85 | a table cast to bytes and written reads back entry by entry |
| Records.AlarmItemRoundTrip | app/storage_manage.c:324 | the same for an alarm's index entry |
| AlarmStore.MsgRecorded | app/storage_manage.c:185-214 | a message touches only erased cells and opens the alarm |
| AlarmStore.InfoStands | app/storage_manage.c:314-322 | a part of the sample record touches only erased cells, right behind the parts before, and leaves every stored alarm readable |
| AlarmStore.InfoRecorded | app/storage_manage.c:312-341 | a part that is not the last keeps the alarm open and everything else recorded |
| AlarmStore.LastInfoRecorded | app/storage_manage.c:323-335 | the last part and the index entry, again on erased cells, add exactly this alarm to the history, up to 640 |
| AlarmStore.DoubledLast | app/storage_manage.c:313-335 | a last part that comes twice leaves every alarm readable, but an extra part and index entry that fit no history |
| AlarmStore.ClearRecorded | app/storage_manage.c:401-419 | an erased chip and reset addresses hold the empty history |
| AlarmStore.RestartIff | app/storage_manage.c:525-538 | a restart resumes the record if and only if the saved count is current and no cell of an alarm in progress has been programmed |
| AlarmStore.SearchMeans | app/storage_manage.c:379-392 | what finding or not finding a timestamp in the pages searched says about the history |
| AlarmStore.InfoBytes | app/storage_manage.c:384 | where an index entry points, the alarm's bytes stand, at any offset |
| AlarmStore.InitialisedIff | app/storage_manage.c:521-538 | on an erased chip a start is sound if and only if the flag is FIRST_ON, or NEXT_ON with no alarms saved |
| AlarmStore.AlarmObject.constructor | app/storage_manage.c:509-541 | the object for every value of the flag: at the start, behind the saved number of alarms, or cleared |
| AlarmStore.AlarmObject.WriteAlarmMsg | app/storage_manage.c:185-214 | object and chip after the call |
| AlarmStore.AlarmObject.WriteAlarmInfo | app/storage_manage.c:270-341 | object, chip and saved count after the call; nothing for a foreign timestamp |
| AlarmStore.AlarmObject.ReadAlarmInfo | app/storage_manage.c:343-399 | on any chip the bytes behind the first searched index cell that shows the timestamp, or -1 if none does; on a chip that holds a history, 0 with the bytes stored at that offset if and only if the timestamp is recorded, or is 0xFFFFFFFF and the search meets an erased entry |
| AlarmStore.AlarmObject.FindEntry | app/storage_manage.c:379-392 | the first entry with the timestamp in the pages searched, or none there |
| AlarmStore.AlarmObject.ClearAlarmData | app/storage_manage.c:401-419 | the empty store |
| AlarmProtocol.AlwaysOrderly | app/adc_sample.c:571-605 | in every run with a queue drained between ticks: raise, message, the seconds alarm_ts, +1, +2 in order with the third marked last, end of save, and no second raise before that |
| AlarmProtocol.TickAndTask | app/storage_manage.c:551-566 | a second not stored yet is asked for again on the next tick, a stored one moves the save on, and after the third the save ends |
| AlarmProtocol.UndrainedInRun | app/adc_sample.c:381-383 | in every run drained so far, a tick that finds a message in the queue, and the two answers after it, break the protocol if and only if a second is already being saved and both answers find it |
| AlarmProtocol.UndrainedIff | app/storage_manage.c:558-563 | what is then written in each case of the two answers, for all three seconds |
| AlarmProtocol.UndrainedRaise | app/storage_manage.c:551-566 | a tick before the alarm message is handled does no harm |
| AlarmProtocol.RaiseIffSixth | app/adc_sample.c:475-538 | a step raises if and only if its sample is the sixth of an unbroken run of one alarm type after the start time, with nothing being saved and no raise since the last normal sample or clear, all told by inputs and actions; what the raise puts into the queue; num stays at most 5 |
| AlarmProtocol.AlwaysTold | app/adc_sample.c:475-564 | in every run the state is Raised exactly from a raise to the next normal sample or clear, not Cleared exactly until the next clear, and the save is on exactly from a raise to its end |
| AlarmProtocol.TickAsks | app/adc_sample.c:381-383 | a tick asks for at most one second, one that has passed, and otherwise changes nothing |
| AlarmProtocol.AlwaysCounting | app/adc_sample.c:485-500 | the counter is the length of that run minus one in every reachable state that can raise |
| AlarmProtocol.AlarmNotify.CheckAlarm | app/adc_sample.c:454-538 | all fields and the queue after an alarming or a normal sample |
| AlarmProtocol.AlarmNotify.ClearAlarm | app/adc_sample.c:545-564 | a standing alarm is cleared in the clearing range only |
| AlarmProtocol.AlarmNotify.Second | app/adc_sample.c:381-383 | the save trigger, compared in 32 bits |
| AlarmProtocol.AlarmNotify.SaveAlarm | app/adc_sample.c:571-605 | asks for the next second or ends the save |
| AlarmProtocol.AlarmNotify.HandleMessage | app/storage_manage.c:552-565 | what the alarm task writes for a message, and that only a found second counts |
| AlarmRecord.RunRecorded | app/storage_manage.c:543-568 | from an erased chip every orderly run leaves exactly its alarms on flash, each with the data of its saved seconds |
| LogLookup.Look | app/storage_manage.c:559 | what a task gets for a whole second is whether the log has it, and its data |
| AlarmRecord.AlwaysInTune | app/storage_manage.c:558-563 | in every run of both sides every part written is the log's data for its second, then and ever after |
| AlarmRecord.SidesAreRuns | app/storage_manage.c:543-568 | each side of a run of both is a run of its own with all its events |
| AlarmRecord.EndToEnd | app/storage_manage.c:543-568 | sampler, tick, alarm task, first-lap sample log and flash together: after any run every recorded alarm consists of the log's entries for the second before it, its own and the one after |
| AlarmSlots.SetSound | app/storage_manage.h:30-36 | a change confined to one alarm's cells leaves every other slot as it is |
| AlarmSlots.RecordedIffSound | app/storage_manage.h:30-36 | while nothing is written twice, the slots say exactly what the history says |
| AlarmSlots.OverwrittenIff | BSP/src/BSP_GD55B01.c:229-246 | cells programmed a second time hold the new bytes if and only if these only clear bits |
| AlarmSlots.FullStartsOver | app/storage_manage.c:325-332 | after alarm 640 the store stands at its first cells, and the next message reads right if and only if it only clears bits of the first one |
| AlarmSlots.WholeReads | app/storage_manage.c:379-392 | the index cell of a complete slot shows its timestamp and leads to its bytes, whatever the other slots hold |
| PowerLoss.AlwaysSafe | app/storage_manage.c:543-568 | in every life of the recorder, power losses in the middle of both stores' writes included, the log is consistent, the protocol in order and every slot as it is known, with seconds the log has stored |
| PowerLoss.AnyMoment | app/storage_manage.c:543-568 | power can fail in every such state, and while an alarm is written with anything in its cells |
| PowerLoss.LostIff | app/storage_manage.c:525-538 | a completed slot holds its alarm, written once, if and only if no power loss found it begun and not covered by the saved count |
| PowerLoss.Survives | app/storage_manage.c:333 | a slot the saved count covers never changes again, whatever happens |
| PowerLoss.SaveCovers | app/msg_parse.c:842-845 | a configuration save covers every alarm complete at that moment: its slot never changes again and no later loss puts it at risk |
| PowerLoss.LossGoesBack | app/storage_manage.c:525-538 | a power loss goes back on both sides exactly to the last save: to its number of alarms and to its whole index blocks |
| PowerLoss.PartCompletes | app/storage_manage.c:558-563 | a second the log has, asked for by a tick and answered by the alarm task, is the next part of the open alarm, and the third completes it |
| PowerLoss.LogOfLife | app/storage_manage.c:60-120 | the log side of a life is a log run with all its events |
| PowerLoss.AlarmsOfLife | app/storage_manage.c:543-568 | the alarm side since the last loss is a drained run of the protocol from its start |
| PowerLoss.EverStored | app/storage_manage.c:60-120 | what the records are compared with are exactly the seconds the log was given |
| PowerLoss.EndToEnd | app/storage_manage.c:543-568 | every completed alarm no loss put at risk is on the chip, `Storage_Read_AlarmInfo` gets its bytes through its index cell, and they are what the log stored for the second before it, its own and the one after |
| AdcCache.StoringAppends | app/adc_sample.c:131-147 | storing around the end of the cells appends, even into the last free cell |
| AdcCache.BatchIsOneByOne | app/adc_sample.c:119-152 | a batch write is its items written one by one |
| AdcCache.Cache.WriteOne | app/adc_sample.c:87-110 | stored, full or refused, with its code |
| AdcCache.Cache.WriteBatch | app/adc_sample.c:119-152 | the longest prefix that fits is appended and its length returned |
| AdcCache.Cache.ReadOne | app/adc_sample.c:160-182 | the oldest item is removed, with the code for empty or refused |
| AdcCache.Cache.ReadBatch | app/adc_sample.c:191-223 | exactly the first min(count, max_len) items are removed |
| AdcCache.Cache.Clear | app/adc_sample.c:249-265 | empty afterwards, unless the mutex is refused |
| RelayQueue.CirQue.EnQueue | app/utils.c:92-109 | refused without the mutex or with 61 messages waiting, otherwise the message is appended zero-padded to 100 bytes, because free slots stay zero |
| RelayQueue.CirQue.DeQueue | app/utils.c:119-137 | the oldest message is handed out and its slot is zero again |
| Wire.CheckSum8 | app/msg_parse.c:98-108 | the sum of the bytes in 16 bits |
| Wire.SumNotices | app/msg_parse.c:98-108 | the checksum notices every single changed byte |
| Wire.HighFirst | app/msg_parse.h:81-86 | converted fields have their high byte first |
| RelayQueue.FrameAccepted | app/msg_parse.c:793-808 | a frame built for a second, padded by the queue, is accepted by length, header and checksum wherever it lies in memory, and gives all its fields back |
| RelayQueue.CorruptedIgnored | app/msg_parse.c:793-808 | one byte changed in front of the checksum, outside the length field, gets a frame ignored |
| RelayQueue.SecondsMeans | app/msg_parse.c:554-559 | a request becomes min(span, 60) seconds; only within the last minute before 2^32 the clamp itself wraps and makes it 60 |
| RelayQueue.SampleData | app/msg_parse.c:524-577 | the queue after a request: one frame per second with total 20 n and number 20 i, dropped only where enQueue refuses |
| RelayQueue.PutAllMeans | app/utils.c:92-109 | frames keep their order behind the queue; those without the mutex or with 61 messages waiting are lost, the others are not |
| RelayQueue.PutsAreRun | app/msg_parse.c:567-576 | an uninterrupted request leaves exactly its frames in an empty queue |
| RelayQueue.SampleDataIn | app/msg_parse.c:584-659 | the 20 frames sent for a message, byte for byte, after a lookup in the sample log that holds a history: numbered on from its number, each with the 50 items of its share of that entry, or date and stamp alone for a second without one |
| SampleResponse.FillFound | app/msg_parse.c:632-645 | one frame in the buffer of the one before: date, stamp and temperature of the first item, four converted words of each of 50 items, checksum |
| SampleResponse.FillMissing | app/msg_parse.c:646-655 | for a missing second only number and stamp change; temperature and readings are 0 |
| SampleResponse.FrameReadable | app/msg_parse.h:81-86 | a peer that reads high byte first accepts every response frame and gets every field of it back |
| SampleResponse.FoundCarriesItems | app/adc_sample.h:76-84 | current and voltage, front and rear, are data[0] to data[3] of each packed item, with the first item's date, stamp and temperature |
| SampleResponse.FrameCarriesItems | app/msg_parse.c:633-643 | and stand at their places in the frame, high byte first |
| SampleResponse.MissingMeans | app/msg_parse.c:608-651 | the answer for a missing second carries its milliseconds and zeros, and a date that reads back as that second from 2000 on |
| RelayQueue.ProcessOne | app/msg_parse.c:787-811 | for every message and every length field, memory around the message included: an accepted internal request is answered, anything else is not |
| RelayQueue.AlwaysInOrder | app/msg_parse.c:567-576 | in every interleaving of handler and relaying task the relayed and waiting messages are the first frames of the request in order, so none is dropped |
| RelayQueue.StepMoves | app/utils.c:92-137 | each step of a run moves one message if there is one to move |
| RelayQueue.AnswersInOrder | app/msg_parse.c:630-658 | relayed frames in order are answered by responses 0, 1, 2, ... in order, each from the log of its moment |
| RelayQueue.RequestAnswered | app/msg_parse.c:524-577 | a request for n seconds is answered by responses 0 to 20 n - 1, in order, each once, all with total 20 n, in every interleaving and while the log grows |
| RelayQueue.AnswersCarryReadings | app/msg_parse.c:630-645 | the 20 responses of a stored second carry the four readings of all 1000 items, each once and in order, and each response the date, stamp and temperature of its first item |
| RelayQueue.LogMapMeans | app/storage_manage.c:122-183 | the log a history amounts to has its entries and no others |
| RelayQueue.LogAnswers | app/msg_parse.c:607-656 | for every entry of a first-lap history the 20 responses carry the readings of that entry's bytes; without an entry all 20 are the answer for a missing second |
| RelayQueue.RequestCarriesHistory | app/msg_parse.c:524-659 | for seconds the log held before a request, in every interleaving and while the log grows, response k is share k mod 20 of the bytes of second k div 20 |
| RelayQueue.RequestCarriesItems | app/msg_parse.c:630-645 | for a second stored as 1000 packed items, response k and its frame carry the four values of items 50 j to 50 j + 49, j = k mod 20, in order, and date, stamp and temperature of item 50 j |
| Calendar.DatetimeToTimestamp | app/utils.c:189-218 | 0 for what it refuses; the number of seconds if and only if that fits 32 bits; beyond that reduced, or 0 where the final comparison sees the overflow |
| Calendar.SecondsIsPosix | app/utils.c:197-211 | the day loops compute the formula of section 4.16 of POSIX.1-2017 Base Definitions |
| Calendar.StrictlyMonotone | app/utils.c:189-218 | later valid dates have larger values |
| Calendar.TimestampToDatetime | app/utils.c:231-264 | the valid date with exactly that number of seconds, its year reduced to a byte |
| Calendar.DateIsUnique | app/utils.c:231-264 | no other valid date has it |
| Calendar.BcdRoundTrip | app/utils.c:271-284 | two digits survive up to 159, above that 160 is lost |
| Calendar.BcdShowsDecimal | app/utils.c:271-284 | a BCD byte written in hexadecimal shows the decimal digits of its number |
| Calendar.ThereAndBack | app/msg_parse.c:494-512 | a timestamp sent as BCD time and taken back is unchanged if and only if it is at least 946684800 |
| Calendar.ZellerCongruence | app/msg_parse.c:122 | the sum differs from the day count by five and a multiple of seven |
| Calendar.CalculateDayOfWeek | app/msg_parse.c:111-130 | from year 1 on: equals (day number + 4) mod 7 if and only if the sum is not negative or a multiple of seven |
| Calendar.DayNumberIsDayCount | app/utils.c:197-206 | from 1970 on that day number is the one the conversion loops accumulate |
| Calendar.NextDay | app/utils.c:144-177 | and it counts the days of the Gregorian calendar one by one from year 1 |
| Calendar.DayOfWeekIff | app/msg_parse.c:122-128 | the same for the value of the sum |
| Calendar.MarchFirst2000 | app/msg_parse.c:122-128 | a date on the wrong side |
| Printf.NumeralValue | RTT/SEGGER_RTT_printf.c:197-205 | dividing by falling powers of the base gives digits whose positional value is the number |
| Printf.NumberMeans | RTT/SEGGER_RTT_printf.c:137-221 | max(precision, digits of v) digits with positional value v |
| Printf.DigitsBound | RTT/SEGGER_RTT_printf.c:147-154 | the width loop counts digits without leading zeros |
| Printf.EmittedIsNumeral | RTT/SEGGER_RTT_printf.c:197-205 | with the right weight the output loop stores these digits |
| Printf.WeightInLimit | RTT/SEGGER_RTT_printf.c:183-193 | within the limit no product wraps and the weight is that of the highest digit |
| Printf.PrecisionIff | RTT/SEGGER_RTT_printf.c:177-205 | max(precision, digits) characters come out if and only if the precision is at most 10 in base 10, 8 in base 16, and then they are the number |
| Printf.DividesByZeroIff | RTT/SEGGER_RTT_printf.c:187 | the weight is 0 if and only if the precision is at least 33 in base 10, 9 in base 16 |
| Printf.ElevenDigits | RTT/SEGGER_RTT_printf.c:192 | precision 11 in base 10: weight 1410065408 and ten characters |
| Printf.UnsignedMeans | RTT/SEGGER_RTT_printf.c:137-221 | within the limit: padding, number, padding, of length max(FieldWidth, digits), under every flag combination |
| Printf.IntMeans | RTT/SEGGER_RTT_printf.c:227-297 | within the limit, except INT_MIN: spaces, sign, zeros, number, spaces, of length max(FieldWidth, sign + digits), under every flag combination |
| PrintfReading.UnsignedReadsBack | RTT/SEGGER_RTT_printf.c:137-221 | within the limit a reader of the text gets the number back, whatever the flags |
| PrintfReading.IntReadsBack | RTT/SEGGER_RTT_printf.c:227-297 | the same for every 32-bit integer with its sign |
| PrintfReading.PaddingMeans | RTT/SEGGER_RTT_printf.c:255-283 | a minus exactly for negative numbers, a plus exactly for the others under the sign flag, zeros or spaces as the flags say, on one side only |
| Printf.IntMinIff | RTT/SEGGER_RTT_printf.c:231-243 | for INT_MIN the length is right if and only if it is left-justified, the precision is 10 or the field is not wider than what was counted |
| Printf.Printer.StoreChar | RTT/SEGGER_RTT_printf.c:112-131 | the character is added wherever the flush falls; a sink that takes only a part sets the error and leaves the buffer full, and a call after that sends it again |
| Printf.Printer.Pad | RTT/SEGGER_RTT_printf.c:168-173 | fills up to the field width and leaves the remaining width |
| Printf.Printer.FirstDivisor | RTT/SEGGER_RTT_printf.c:183-193 | the weight, for every precision, with 32-bit products |
| Printf.Printer.PrintDigits | RTT/SEGGER_RTT_printf.c:197-205 | what the weight makes the output loop emit follows what was printed before |
| Printf.Printer.Outcome | RTT/SEGGER_RTT_printf.c:124-130 | printing goes on if and only if no flush within the text is refused |
| Printf.Printer.SentIsPrefixIff | RTT/SEGGER_RTT_printf.c:124-130 | after a refusal the sink has a prefix of the text if and only if the buffer was not sent again or the text repeats itself there |
| Printf.Printer.PrintUnsigned | RTT/SEGGER_RTT_printf.c:137-221 | for every precision: output and return value grow by the text, after a refusal by a prefix; where it divides by zero; the refused buffer is sent again if and only if the number is left-justified in a wider field and a flush within its digits is refused; and what the sink has then |
| Printf.Printer.PrintInt | RTT/SEGGER_RTT_printf.c:227-297 | the same for every 32-bit integer, INT_MIN included, with the field and the sign counted as the code counts them |
| Printf.SentTwice | RTT/SEGGER_RTT_printf.c:124-219 | a call after which the sink has the first digit twice |

## Left out

- GPIO, SPI, I2C, SDIO, ADC, RTC, one-wire, timers, interrupts, lwIP, LEDs and relay: replaced by block, NOR and EEPROM devices that succeed.
- FreeRTOS: tasks are sequences of atomic steps; a failed mutex take is modelled for the cache, the queue, the sampler and the tick, not for the storage calls.
- Floating point: calibration, moving average and alarm thresholds; the alarm type of a sample and the clearing level are inputs.
- Memory reordering: program order up to the barriers before an offset is published.
- Null-pointer checks and the return codes that only report them.
- RttBuffer.Ring.WriteBlocking: data that does not fit and a host that stops reading for good, with which the call does not return.
- RttTerminal.Channel0.Write: `SEGGER_RTT_WriteNoLock` compares the unmasked Flags, as modelled, while the terminal functions mask them; flag bits beyond the mode are therefore "other flags" here.
- Emmc.Card.WriteBytes: ranges whose end passes 2^32 and failing block operations; a success on the third attempt is reported as a failure by the block functions, which never shows here.
- Emmc.Card.ReadBlocks: the erase that precedes a block write is part of the write, and block operations always succeed.
- SampleLog.AdcObject.ReadAdcData: only the first lap; on later laps the search assumes sorted blocks and times that `FlushTimes` shows to fail.
- SampleLog.AlwaysConsistent: a saved configuration record is a consistent snapshot, and restarts take the NEXT_ON branch; torn concurrent snapshots are not modelled.
- `storage_task`: collecting 1000 items into a second, and its carry-over that copies from the item just stored instead of the next one.
- AlarmStore.LastInfoRecorded: alarms after number 640; what the first of them meets is `AlarmSlots.FullStartsOver`.
- AlarmStore.DoubledLast: the last alarm of an erase, whose second part would go over the first alarm.
- AlarmStore.AlarmObject.ReadAlarmInfo: a history has distinct timestamps; what two cells with one timestamp give is the first of them.
- `Storage_Read_AlarmMsg`: its return code is never set to 0; the read itself is `ReadData`.
- AlarmProtocol.AlwaysOrderly: a queue that is not drained between two ticks; what one such tick does is `UndrainedInRun`.
- AlarmRecord.EndToEnd: power losses during the run, which are the subject of `PowerLoss.EndToEnd`.
- PowerLoss.EndToEnd: `Storage_Clear_AlarmData`, and a power loss inside it or inside the write of the configuration record; no message follows alarm 640, and every restart is one with NEXT_ON; what other stored records do at a start is `Startup.StartIff`.
- AdcCache.Cache.constructor: the size is a parameter, 600 in the firmware.
- RelayQueue.ProcessOne: the handlers of other message types; memory around a message is read as it is, whatever lies there.
- RelayQueue.RequestAnswered: the relay's FreeRTOS queue never drops a message and both mutex takes succeed; one request at a time, from an empty queue.
- Calendar.CalculateDayOfWeek: years before 1, for which the calendar has no dates.
- Printf.Printer.PrintInt: overflow of the return value.
- Printf.Printer.PrintUnsigned: what happens after a division by zero.
- `SEGGER_RTT_vprintf`: format parsing, and its return value, which counts the unflushed tail twice.
