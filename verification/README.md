# Simos-Logger BLE service, modelled in Dafny

This project models the Bluetooth core of the Simos-Logger Android app. The app talks to an ISO-TP bridge over BLE. The model covers four parts:

- **The frame header and the notification splitter** (`BleHeader`, in `ble_header.dfy`).
  - `BLEHeader.toByteArray` and `fromByteArray` are modelled byte for byte, with Kotlin's `Int`/`Byte` masking and wrap-around written out.
  - `fromByteArray` throws on fewer than eight bytes, and `OutOfBounds` names the index that throws.
  - The `onCharacteristicChanged` loop is a recursive `SplitFrames` and a `while` method over the same loop.
  - Like the app, the splitter never consults `isValid()`.
- **The worker thread** (`ConnectionThread`, in `connection_thread.dfy`).
  - `setTaskState`, `startNextTask` with its entry frames (`clearDTC`, `getECUInfo`), the handling of one inbound frame for each task, and one iteration of the `run()` loop (write, read, promote).
  - The clock is a parameter `now`. `UDSLogger` and `Settings` are parameters (`Logger`, `Settings`).
  - The write queue holds `Outbound` requests. `Bytes` gives the byte array each request stands for.
- **The service** (`BtService`, in `bt_service.dfy`).
  - `setConnectionState`, `doDisconnect`, `doTimeout` and `doConnect`.
  - The scan-result name match (ignoring case) and the connection-identity guards of the GATT callbacks.
  - The write permit, released by `onCharacteristicWrite`.
  - The notification callback and the `onStartCommand` actions.
  - A transition function `Next` over all of these, with an invariant that every input keeps.
- **The constants and helpers of `Constants.kt`** (`Constants`, in `constants.dfy`, over the Kotlin integer model in `kotlin_int.dfy`).
  - The state, task, flag and setting codes, and the cyclic `FLASH_ECU_CAL_SUBTASK.next()`.
  - The ECU identifier table, `toArray2`, `toArray4`, `toColorInt`, and the `Byte.and`/`shl`/`shr` extensions.

Kotlin types are modelled exactly:
- `Byte` is `int8`, `Int` is `int32` and `Long` is `int64`, with explicit wrap-around (`Wrap8`, `Wrap32`, `Wrap64`).
- `and`/`or` are bit-by-bit recursions over two's complement (`AndBits`, `OrBits`). Lemmas then prove them equal to their arithmetic meaning.
- `%` is Kotlin's truncating remainder (`Rem32`), and it throws on a zero divisor.

Where the code and its description differ, the model follows the code:
- The write and read queues are service fields. `doDisconnect` does not clear them, and neither does the thread's end.
- The new worker's `init` calls `setTaskState(TASK_NONE)` while the service still has its previous state (`Init`).
- `onCharacteristicChanged` and `onCharacteristicWrite` have no identity guard.
- `onMtuChanged` uses its guard only on success. A failed MTU exchange on any connection disconnects the service with ERROR.
- `onConnectionStateChange` compares devices, not connections. A stale second connection to the bound device that fails or disconnects ends the session (`StaleConnectionEndsSession`).

## Model

| member | source | states |
|---|---|---|
| KotlinInt.Rem32 | app/src/main/java/com/app/simoslogger/BTService.kt:697 | Kotlin's `%`: the remainder differs from the dividend by a multiple of the divisor, has the sign of the dividend and is smaller in size than the divisor, which together fix it; it is zero exactly when the divisor divides the dividend |
| KotlinInt.AndLowMask | app/src/main/java/com/app/simoslogger/Constants.kt:233 | and-ing with a low mask of k one-bits keeps the value modulo 2^k, for negative values too |
| KotlinInt.AndShiftedMask | app/src/main/java/com/app/simoslogger/Constants.kt:242 | and-ing with a mask shifted left by j bits is that shift applied to the mask's and with the value shifted right |
| KotlinInt.OrLowHigh | app/src/main/java/com/app/simoslogger/Constants.kt:243 | or-ing a value below 2^k with a multiple of 2^k adds them |
| KotlinInt.And32SecondByte | app/src/main/java/com/app/simoslogger/BTService.kt:45 | `(x and 0xFF00) shr 8` is the second byte of x |
| Constants.CodesAreDistinct | app/src/main/java/com/app/simoslogger/Constants.kt:37-49 | distinct connection states and tasks carry distinct integer codes, so code comparisons agree with the model's |
| Constants.AdvanceOrdinal | app/src/main/java/com/app/simoslogger/Constants.kt:69-72 | k applications of `next()` move the ordinal by k modulo 16 |
| Constants.FlashSubtask.Next | app/src/main/java/com/app/simoslogger/Constants.kt:69-72 | `next()` gives the sub-step whose ordinal is one more, modulo the 16 values |
| Constants.LastWraps | app/src/main/java/com/app/simoslogger/Constants.kt:69-72 | `RESET_ECU.next()` is `NONE`; every other sub-step's successor has the next ordinal |
| Constants.NextCycles | app/src/main/java/com/app/simoslogger/Constants.kt:51-73 | 16 applications of `next()` return to the start, and no fewer positive number does |
| Constants.OrdinalInjective | app/src/main/java/com/app/simoslogger/Constants.kt:51-67 | sub-steps with the same ordinal are the same sub-step |
| Constants.TimingAndFlags | app/src/main/java/com/app/simoslogger/Constants.kt:75-76 | the completion delay is positive and below the timeout; the six command flags are distinct powers of two |
| Constants.SettingsCommand | app/src/main/java/com/app/simoslogger/BTService.kt:715 | or-ing the settings flag with a setting number below 128 adds them |
| Constants.EcuInfoTable | app/src/main/java/com/app/simoslogger/Constants.kt:210-225 | the table has 14 entries, every identifier is 2 bytes, names and identifiers are pairwise distinct, and the first entry reads F190 |
| Constants.EcuInfoNumbers | app/src/main/java/com/app/simoslogger/Constants.kt:210-225 | every identifier byte is in 0..255, and each entry's identifier number finds that entry's position |
| Constants.EcuInfoNames | app/src/main/java/com/app/simoslogger/Constants.kt:210-225 | each entry's name finds that entry's position, so no two entries share a name |
| Constants.EntryIdentifier | app/src/main/java/com/app/simoslogger/Constants.kt:211-224 | an entry's two identifier bytes read back as the big-endian number they were written from |
| Constants.ByteAndMask | app/src/main/java/com/app/simoslogger/Constants.kt:233 | `b and 0xFF` is in 0..255 despite sign extension, is the unsigned value of b, adds 256 to a negative byte, and converts back to b |
| Constants.UnsignedInverse | app/src/main/java/com/app/simoslogger/Constants.kt:233 | converting a byte's unsigned value back to a byte gives the byte |
| Constants.ShlByte | app/src/main/java/com/app/simoslogger/Constants.kt:229 | shifting a byte value left by 8 multiplies it by 256 |
| Constants.ToArray2 | app/src/main/java/com/app/simoslogger/Constants.kt:242 | `toArray2` is 2 bytes, big-endian, with b0*256 + b1 == x mod 65536, and == x for x in 0..65535 |
| Constants.ToArray2Bytes | app/src/main/java/com/app/simoslogger/Constants.kt:242 | the masked and shifted Kotlin expression of each byte reads back as x mod 65536 |
| Constants.ToArray4 | app/src/main/java/com/app/simoslogger/Constants.kt:246 | `toArray4` is 4 bytes, big-endian, whose weighted sum is x mod 2^32, and x itself for x in 0..2^32-1 |
| Constants.ToArray4Masks | app/src/main/java/com/app/simoslogger/Constants.kt:246 | each masked and shifted `Long` expression is the corresponding base-256 digit of x |
| Constants.ToColorInt | app/src/main/java/com/app/simoslogger/Constants.kt:243 | `toColorInt` keeps the low 24 bits of its input and sets the top byte to 0xFF, so the result is negative |
| Constants.ColorBits | app/src/main/java/com/app/simoslogger/Constants.kt:243 | the Kotlin expression `(toInt() and 0xFFFFFF) or 0xFF000000.toInt()` equals the low 24 bits minus 2^24 |
| BleHeader.NewHeader | app/src/main/java/com/app/simoslogger/BTService.kt:29-35 | a new header is valid, has no flags, size or tick count, and carries the default rx and tx ids |
| BleHeader.ValidityOnTheWire | app/src/main/java/com/app/simoslogger/BTService.kt:37-39 | `isValid()` holds exactly when the first encoded byte is 0xF1, whatever the flags |
| BleHeader.DecodedValidity | app/src/main/java/com/app/simoslogger/BTService.kt:37-39 | a decoded header is valid exactly when the first received byte, read unsigned, is 0xF1 |
| BleHeader.LowByteMask | app/src/main/java/com/app/simoslogger/BTService.kt:43 | `(x and 0xFF).toByte()` is the low byte of x, for every Int |
| BleHeader.HighByteMask | app/src/main/java/com/app/simoslogger/BTService.kt:46 | `((x and 0xFF00) shr 8).toByte()` is the second byte of x, for every Int |
| BleHeader.Field8Mask | app/src/main/java/com/app/simoslogger/BTService.kt:56-57 | `b and 0xFF` on a received byte is its unsigned value |
| BleHeader.Field16Mask | app/src/main/java/com/app/simoslogger/BTService.kt:58-60 | `((hi and 0xFF) shl 8) + (lo and 0xFF)` is the unsigned little-endian reading of the two bytes |
| BleHeader.TickOfMask | app/src/main/java/com/app/simoslogger/BTService.kt:61 | `((rx and 0xFFFF) shl 16) + (tx and 0xFFFF)` is the tick count formed from the two ids, wrapped to an Int |
| BleHeader.ToByteArray | app/src/main/java/com/app/simoslogger/BTService.kt:41-53 | 8 bytes: id and flags masked to 8 bits, then rx, tx and size each little-endian modulo 65536 |
| BleHeader.FromByteArray | app/src/main/java/com/app/simoslogger/BTService.kt:55-62 | throws exactly on fewer than 8 bytes, naming the first index read that is missing; otherwise id and flags are unsigned bytes, rx, tx and size little-endian, and the tick count joins rx and tx |
| BleHeader.TickCountValue | app/src/main/java/com/app/simoslogger/BTService.kt:61 | for 16-bit ids the tick count is rx*65536 + tx, wrapped into a 32-bit `Int` when rx >= 0x8000 |
| BleHeader.DecodeFields | app/src/main/java/com/app/simoslogger/BTService.kt:56-61 | the masked and shifted Kotlin field expressions equal the unsigned and little-endian readings |
| BleHeader.DecodeEncode | app/src/main/java/com/app/simoslogger/BTService.kt:41-62 | decoding an encoded header gives its fields reduced modulo their byte widths, with the tick count recomputed |
| BleHeader.RoundTrip | app/src/main/java/com/app/simoslogger/BTService.kt:41-62 | for in-range fields, `fromByteArray` inverts `toByteArray` |
| BleHeader.EncodeDecode | app/src/main/java/com/app/simoslogger/BTService.kt:41-62 | re-encoding the header decoded from at least 8 bytes gives back those first 8 bytes |
| BleHeader.DecodePrefix | app/src/main/java/com/app/simoslogger/BTService.kt:55-62 | decoding reads only the first 8 bytes |
| BleHeader.SplitFrames | app/src/main/java/com/app/simoslogger/BTService.kt:359-369 | the split loop ends and never lengthens the remainder; it throws on a 1 to 7 byte remainder, drops a longer one that does not fit, and never consults `isValid()` |
| BleHeader.SplitShape | app/src/main/java/com/app/simoslogger/BTService.kt:359-369 | the queued chunks followed by the remainder are the input; each chunk is 8 bytes plus its own declared size; the callback throws exactly on a 1 to 7 byte remainder; a longer remainder declares more than it has |
| BleHeader.AccountsUnique | app/src/main/java/com/app/simoslogger/BTService.kt:359-369 | the characterisation of a split is unique: any split that accounts for a notification is the one the loop produces |
| BleHeader.SplitConcat | app/src/main/java/com/app/simoslogger/BTService.kt:359-369 | well-formed frames in front of any bytes are queued one by one before whatever those bytes give |
| BleHeader.SplitWellFormed | app/src/main/java/com/app/simoslogger/BTService.kt:359-369 | n back-to-back well-formed frames are queued as exactly those n frames, in order, with nothing left |
| BleHeader.OnCharacteristicChanged | app/src/main/java/com/app/simoslogger/BTService.kt:359-369 | the `while` loop appends exactly what `SplitFrames` cuts and stops with the remainder it throws on |
| ConnectionThread.CommandHeader | app/src/main/java/com/app/simoslogger/BTService.kt:799-801 | a command header is valid, keeps the default ids, and carries the given flags and size |
| ConnectionThread.Frame | app/src/main/java/com/app/simoslogger/BTService.kt:729 | a header's bytes followed by the payload: 8 bytes longer, with the payload after byte 8 |
| ConnectionThread.SettingsFlagsOr | app/src/main/java/com/app/simoslogger/BTService.kt:715 | the settings flags of a setting number below 128 are `BLE_COMMAND_FLAG_SETTINGS or setting` (also at lines 834 and 841) |
| ConnectionThread.SettingBytes | app/src/main/java/com/app/simoslogger/BTService.kt:835 | a setting's value as 2 bytes, little-endian modulo 65536 |
| ConnectionThread.StopBuffer | app/src/main/java/com/app/simoslogger/BTService.kt:799-808 | the stop buffer is 20 bytes long |
| ConnectionThread.StopBufferParts | app/src/main/java/com/app/simoslogger/BTService.kt:799-809 | the stop buffer is an empty persist-clear frame followed by the LED frame, each well formed |
| ConnectionThread.CommandThenFrameSplits | app/src/main/java/com/app/simoslogger/BTService.kt:359-369 | an empty command frame followed by a well-formed frame splits into exactly those two frames |
| ConnectionThread.HeaderFits | app/src/main/java/com/app/simoslogger/BTService.kt:713-715 | each request's header declares its payload's length, keeps its fields in range, carries the settings flag or-ed with the setting number for settings and the persist-clear flag otherwise, and leaves the default ids except for the clear request (0x7E8/0x700) |
| ConnectionThread.OutboundDecodes | app/src/main/java/com/app/simoslogger/BTService.kt:832-914 | every request the worker builds is well formed, decodes to its header, and carries its payload after byte 8 |
| ConnectionThread.EntryFrameCount | app/src/main/java/com/app/simoslogger/BTService.kt:829-891 | logging queues 3 requests, the ECU-info task 14, the VIN, clear and calibration-flash tasks 1 each, and the others none |
| ConnectionThread.EntryPayload | app/src/main/java/com/app/simoslogger/BTService.kt:829-916 | VIN: a persist-clear frame with `[0x22,0xF1,0x90]`; ECU info: `[0x22,id0,id1]` for each entry in table order; clear and calibration flash: `[0x04]` to 0x7E8/0x700; logging: the two delay settings in order |
| ConnectionThread.EntryFrames | app/src/main/java/com/app/simoslogger/BTService.kt:829-916 | starting a task queues no request exactly for NONE and FLASHING, never an LED request, and for ECU info one request per table entry in table order |
| ConnectionThread.EntryFramesSingle | app/src/main/java/com/app/simoslogger/BTService.kt:829-916 | every entry request is one header plus payload, except the logger's first frame `buildFrame(0)`, which is third |
| ConnectionThread.SetTaskState | app/src/main/java/com/app/simoslogger/BTService.kt:771-811 | unless CONNECTED only the task is dropped and nothing else changes; when CONNECTED the task is scheduled with deadlines now+1000 and now+5000, and a running task is stopped with one broadcast and one stop buffer |
| ConnectionThread.StartNextTask | app/src/main/java/com/app/simoslogger/BTService.kt:813-892 | the scheduled task becomes current, nothing is scheduled, the counter is 0, the start time is now, the deadlines stay, and the change is broadcast |
| ConnectionThread.Init | app/src/main/java/com/app/simoslogger/BTService.kt:577-590 | a new thread has no task and no count; it is scheduled only if the service was already CONNECTED |
| ConnectionThread.Payload | app/src/main/java/com/app/simoslogger/BTService.kt:634 | a frame's payload, the one `Dispatch` hands on, exists exactly when the frame has 8 bytes, and is what follows them |
| ConnectionThread.Dispatch | app/src/main/java/com/app/simoslogger/BTService.kt:630-736 | handling a frame never touches the frame counter or the task start time, can only stop the task, and, outside logging, a throw leaves the worker, the queue and the broadcasts untouched |
| ConnectionThread.LogFrame | app/src/main/java/com/app/simoslogger/BTService.kt:681-734 | a logging frame throws exactly when the update rate is 0, and the remembered writing state becomes the logger's exactly when it does not throw |
| ConnectionThread.LogInit | app/src/main/java/com/app/simoslogger/BTService.kt:686-694 | while initialisation frames remain, a good answer queues the next one and a bad one stops the task; afterwards nothing happens |
| ConnectionThread.DispatchIdle | app/src/main/java/com/app/simoslogger/BTService.kt:631-636 | with no task, the payload without its 8-byte header is broadcast; a shorter frame throws |
| ConnectionThread.DispatchVin | app/src/main/java/com/app/simoslogger/BTService.kt:637-649 | with the VIN task, a 0x62 answer broadcasts the payload from index 2 and any answer stops the task; it throws exactly on an empty payload or a short positive one |
| ConnectionThread.VinKeepsIdentifierByte | app/src/main/java/com/app/simoslogger/BTService.kt:641-644 | stripping 2 bytes leaves the identifier's 0x90 at the head of the broadcast VIN |
| ConnectionThread.DispatchEcuInfo | app/src/main/java/com/app/simoslogger/BTService.kt:650-664 | with the ECU-info task, exactly the 0x62 answers are broadcast whole, and the task goes on |
| ConnectionThread.DispatchClearDtc | app/src/main/java/com/app/simoslogger/BTService.kt:665-672 | with the clear task, the payload is broadcast and the task is stopped |
| ConnectionThread.DispatchFlash | app/src/main/java/com/app/simoslogger/BTService.kt:673-680 | with the calibration-flash task the payload is broadcast as a plain read; the flashing task has no branch and does nothing |
| ConnectionThread.DispatchLogging | app/src/main/java/com/app/simoslogger/BTService.kt:681-735 | with logging, the frame throws exactly when the update rate is 0; a log broadcast happens exactly when the count is a multiple of the rate; an LED request and a write-state broadcast come last exactly when the writing state changed |
| ConnectionThread.Extend | app/src/main/java/com/app/simoslogger/BTService.kt:738-745 | a processed frame adds 1 to the 32-bit counter and restarts a pending task's grace period, never its timeout |
| ConnectionThread.Promote | app/src/main/java/com/app/simoslogger/BTService.kt:753-763 | the pending task starts exactly when one of its deadlines is earlier than now |
| ConnectionThread.FramePostpones | app/src/main/java/com/app/simoslogger/BTService.kt:738-763 | right after a frame, a pending task starts only because of its timeout |
| ConnectionThread.ScheduledTaskStarts | app/src/main/java/com/app/simoslogger/BTService.kt:771-811 | a task scheduled at now starts at a later time exactly when more than 1000 ms have passed, and then it is the current task |
| ConnectionThread.WritePhase | app/src/main/java/com/app/simoslogger/BTService.kt:597-621 | one request leaves the queue exactly when one is waiting and the permit is free; it is sent and keeps the permit, or the write throws, the permit is given back and the request is lost |
| ConnectionThread.ReadPhase | app/src/main/java/com/app/simoslogger/BTService.kt:624-751 | the oldest frame leaves the read queue and is handled by `Dispatch` for the current task: its requests are appended to the write queue, its broadcasts, throw and writing state are the handler's; unless it threw, the counter rises by one and a pending task's grace period restarts |
| ConnectionThread.Finish | app/src/main/java/com/app/simoslogger/BTService.kt:595-763 | an iteration loses and duplicates no request: the one sent, the one lost and the queue left are the old queue plus what was appended |
| ConnectionThread.Step | app/src/main/java/com/app/simoslogger/BTService.kt:592-765 | the loop runs only while CONNECTED, conserves the write queue as `Finish` does, and uses a permit exactly for the request it sends |
| ConnectionThread.StepWriteFails | app/src/main/java/com/app/simoslogger/BTService.kt:615-620 | a write is lost exactly when connected, the link refuses it, a request waits and the permit is free; the loop then ends before reading |
| ConnectionThread.StepCounts | app/src/main/java/com/app/simoslogger/BTService.kt:624-745 | an iteration that goes on consumed one frame, counted it, and broadcast the handler's messages first |
| BtService.SetConnectionState | app/src/main/java/com/app/simoslogger/BTService.kt:553-575 | CONNECTED always installs a new worker, NONE and ERROR always remove it, CONNECTING keeps it; the new state is broadcast |
| BtService.DoDisconnect | app/src/main/java/com/app/simoslogger/BTService.kt:503-524 | the scan and the worker stop, the open connection is closed, the device and connection are forgotten, and the queues and permit stay |
| BtService.DoTimeout | app/src/main/java/com/app/simoslogger/BTService.kt:526-535 | the scan stops; a CONNECTED session is left as it is, any other state becomes NONE |
| BtService.DoConnect | app/src/main/java/com/app/simoslogger/BTService.kt:478-501 | a full disconnect, then CONNECTING with a scan running, broadcasting NONE then CONNECTING |
| BtService.ContainsIgnoreCase | app/src/main/java/com/app/simoslogger/BTService.kt:148 | the name matches exactly when the pattern occurs at some position, character by character ignoring case |
| BtService.ContainsCaseVariant | app/src/main/java/com/app/simoslogger/BTService.kt:148 | a name holding the pattern in any mix of letter cases matches |
| BtService.MatchIgnoresCase | app/src/main/java/com/app/simoslogger/BTService.kt:148 | upper-casing the name does not change whether it matches |
| BtService.OnScanResult | app/src/main/java/com/app/simoslogger/BTService.kt:143-158 | a device is bound and connected to exactly when none is bound and its name contains `BLE_TO_ISOTP`, ignoring case; otherwise nothing changes |
| BtService.OnConnectionStateChange | app/src/main/java/com/app/simoslogger/BTService.kt:169-226 | a callback from another device only closes that connection; a connect stores the connection; other profile states change nothing; a disconnect or a failure stops the scan and the worker, forgets connection and device, closes the callback's and the held connection, and broadcasts NONE, or ERROR with the status recorded |
| BtService.OnServicesDiscovered | app/src/main/java/com/app/simoslogger/BTService.kt:228-260 | a callback for another connection only closes it; a success changes nothing; a failure disconnects with ERROR: the scan and the worker stop, connection and device are forgotten, the status is recorded, ERROR is broadcast, and the queues and permit stay |
| BtService.OnMtuChanged | app/src/main/java/com/app/simoslogger/BTService.kt:262-302 | on success the own connection becomes CONNECTED with a new worker and a foreign one is only closed; any failure disconnects with ERROR: the scan and the worker stop, connection and device are forgotten, the status is recorded, ERROR is broadcast, and the queues and permit stay |
| BtService.OnCharacteristicWrite | app/src/main/java/com/app/simoslogger/BTService.kt:333-352 | the permit is released whatever the status, and nothing else changes |
| BtService.OnCharacteristicChanged | app/src/main/java/com/app/simoslogger/BTService.kt:354-371 | the frames the split loop cuts are appended to the read queue, and nothing else changes |
| BtService.CommandTask | app/src/main/java/com/app/simoslogger/BTService.kt:106-121 | exactly the actions 4 to 9 name a task |
| BtService.CommandTaskInjective | app/src/main/java/com/app/simoslogger/Constants.kt:88-97 | no two actions name the same task |
| BtService.OnStartCommand | app/src/main/java/com/app/simoslogger/BTService.kt:89-127 | stop and disconnect disconnect, connect connects, a task action reaches the worker's `setTaskState` when there is a worker, and anything else changes nothing |
| BtService.RunWorker | app/src/main/java/com/app/simoslogger/BTService.kt:592-765 | a request the loop sends becomes pending at the adapter, and the thread stays registered when its loop ends |
| BtService.NextKeepsInv | app/src/main/java/com/app/simoslogger/BTService.kt:69-80 | every input keeps the invariant: the permit is free exactly when no write is pending, a worker exists exactly while CONNECTED, a stored connection leads to the bound device, and a scan runs only while connecting with no device bound |
| BtService.Inv | app/src/main/java/com/app/simoslogger/BTService.kt:69-80 | the invariant over the service fields, including that a stored connection leads to the bound device; with the single-permit semaphore it allows at most one write pending at the adapter |
| BtService.Next | app/src/main/java/com/app/simoslogger/BTService.kt:595-618 | the writes pending at the adapter grow only when the worker runs, by at most the request it sends, and shrink only on a write acknowledgement (lines 333-352), oldest first |
| BtService.ForeignCallbacksChangeNothing | app/src/main/java/com/app/simoslogger/BTService.kt:169-302 | a connection-state callback from another device, a discovery callback from another connection and a successful MTU exchange on another connection change nothing; a failed MTU exchange on any connection still disconnects with ERROR |
| BtService.StaleConnectionEndsSession | app/src/main/java/com/app/simoslogger/BTService.kt:169-226 | a connection-state callback from a connection that is not the held one but leads to the bound device still ends the session: a failure gives ERROR, a disconnect gives NONE, and the device and worker are dropped |
| BtService.TimeoutKeepsSession | app/src/main/java/com/app/simoslogger/BTService.kt:526-535 | the end of the scan period leaves a CONNECTED session untouched |
| BtService.WriteFailureOrphansWorker | app/src/main/java/com/app/simoslogger/BTService.kt:595-620 | a refused write ends the loop while the service stays CONNECTED with the dead thread registered, so no later request is sent |
| BtService.ConnectSequence | app/src/main/java/com/app/simoslogger/BTService.kt:143-501 | connect, a matching scan result, the link, discovery and the MTU exchange leave the service CONNECTED with a fresh worker and no scan |

## Left out

- Android BLE calls are not modelled. This covers scanning, `connectGatt`, `discoverServices`, `requestMtu`, `requestConnectionPriority`, descriptor writes (`enableNotifications`/`disableNotifications`), `close` and `printGattTable`. They are platform I/O: the model records which connections are closed and which device is connected to, and their exception paths are not modelled.
- Threads, `interrupt`, `@Synchronized` and concurrent queues are not modelled. One loop iteration is a sequential step, and `cancel()` ends the loop.
- The permit is a counter of free permits plus the list of writes pending at the adapter, not a concurrent `Semaphore`.
- `System.currentTimeMillis` is a `now` parameter, read once per operation, where the code reads the clock several times. `Handler.postDelayed` is the explicit `ScanTimeout` input.
- The internals of `UDSLogger`, `Settings`, `LogFile` and `DebugLog` are parameters or are left out.
- The broadcast Intent extras are left out. `StateChange` records whether the error text is attached, and the text is the service's `errorStatus` at that moment. The device-name extra is left out.
- Service lifecycle (`doStartService`, `startForeground`, `stopSelf`, the notification channel) is left out. Only its effect on the connection is modelled: `onDestroy` calls `doDisconnect()` (BTService.kt:134-138), which is what the `Command(BtDoDisconnect)` input does, so no separate input stands for it.
- Case-insensitive matching covers ASCII letters only. Kotlin's Unicode case folding is not modelled.
- A device without a name is not modelled (Kotlin would throw on `device.name.contains`).
- String formatting helpers (`toHex`, `toColorHex`, `toTwo`, `toHex2`, `toHex4`) are left out.
- `toColorInverse` depends on Android's `Color.WHITE`, and `DEFAULT_COLOR_LIST` and the float defaults are plain data. Both are left out.
- The calibration-flash procedure exists only as comments in the code. Only its `clearDTC` preamble is modelled.
- The shift helpers take a distance below 32 (or 64). Kotlin masks larger distances, but every distance in the code is a constant 8, 16 or 24.
- `writeCharacteristic` returns a success flag that the code ignores. The model only distinguishes a write that throws (`canWrite` false).
- ConnectionThread.Step: conservation and permit use are stated per iteration. That a frame is counted and that a write failure ends the loop are separate lemmas (`StepCounts`, `StepWriteFails`).
