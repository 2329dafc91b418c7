# A verified model of the Pybricks runtime components

Pybricks runs MicroPython programs on LEGO hubs. Most of it connects drivers to Python, but some
files hold algorithms whose correctness is not local to a function. This project models these
algorithms in Dafny and proves what they are for:

- **Awaitables** (`Async`, `AsyncProtocol`, `Waits`): handles that are recycled, cancelled by newer
  operations, closed, and awaited. The handle is a class whose methods are proved equal to functions
  on its contents; whole runs of many handles, resources and holders use the same functions.
- **multitask()** (`Task`, `TaskCancellation`, `TaskScheduling`): the round-robin collection is a class
  over an array of tasks; nested collections are trees.
- **Matrices** (`IndexArithmetic`, `Sums`, `Matrix`, `MatrixAlgebra`): transposed and scaled views on
  shared arrays, over the reals.
- **BLE broadcast** (`LittleEndian`, `BleCodec`, `BleChannel`): the payload codec, the RSSI filter in
  wrapping arithmetic, the staleness marker and the channel table.
- **Byte streams** (`Ota`, `OtaSession`, `Uart`, `UartWaits`, `Lwp3`, `MpyContainer`): the flash writer
  and its upload session, `wait_until()` on its own and as one awaitable among others, the
  notification ring, and the container of compiled scripts.

Drivers are oracles: protothread answers are an arbitrary function of the call number, state and
parent; flash writes and checksums fail at will; clocks and arriving bytes are parameters.
Every run is a sequence of events of any length; a call that may block for ever is looked at for any
given number of polls and may turn out to be still waiting. No operation on matrices has a `modifies`
clause, so none of them can change what an existing matrix denotes, although views share memory.

## What a reader may not expect

- The longest wait that can never end early is 2^31 + 1 ms, because `pbio_util_time_has_passed`
  compares with `UINT32_MAX / 2` (`Waits.NeverEarlyIffShort`).
- `wait_until()` finds its pattern in every stream that holds it only if all bytes of the pattern are
  equal (`Uart.FindsEveryOccurrenceIffUniform`).
- A reference that is kept after StopIteration steps whatever its handle is used for next
  (`AsyncProtocol.StaleHolderStepsForeignOperation`), as the comment in the source warns. This happens
  exactly in the runs where a reference is used although a later start handed its handle out again
  (`AsyncProtocol.OwnOnlyIffNewestUsed`).
- After a `wait_until()` was stopped by `read()` or closed, the device refuses every later
  `wait_until()` (`UartWaits.LostWaitRefusesForEver`), because only the return map of a wait clears the
  recorded length.
- A race of no tasks never ends (`TaskScheduling.EmptyCollections`).
- A linear index out of range is not always noticed on transposed matrices of several columns
  (`Matrix.BoundsCheckSoundIff`).
- Data that is 2^32 ms old looks new to `observe()` (`BleChannel.LongGapLooksFresh`). A look is right
  exactly for gaps of at most 1000 ms and those that are more than 1000 modulo 2^32
  (`BleChannel.LookIsRightIff`), and a whole run exactly if the clock disturbs none of its steps
  (`BleChannel.StaleIffOldIffUndisturbed`).
- A notification that is shorter than its first byte says is read with the bytes of an older one behind
  it (`Lwp3.WhatIsRead`).
- The channel argument of `observe()` is cut to a byte, so that 257 is accepted where channel 1 is
  configured, though the documentation promises a ValueError (`BleChannel.ObserveOutOfRange`).
- `LWP3Device(num_notifications=256)` has no notification slots at all, since the number is kept in a
  byte (`Lwp3.ReadWithoutSlots`).

## Model

| member | source | states |
|---|---|---|
| Async.Handle.ScheduleStopIteration | pybricks/tools/pb_type_async.c:27-35 | a handle in use ends at its next iteration; a free one stays free |
| Async.Handle.Close | pybricks/tools/pb_type_async.c:37-47 | frees the handle and fires its hook unless it was free |
| Async.Handle.Iternext | pybricks/tools/pb_type_async.c:50-89 | the new contents and the outcome of one iteration, in all three stages of life |
| Async.WhileAgain | pybricks/tools/pb_type_async.c:71-76 | after i AGAIN answers a handle is as armed, but for the state and the record of its i calls |
| Async.AwaitingRefinesBlocking | pybricks/tools/pb_type_async.c:70-88 | awaiting makes the same calls on the same states in the same order as blocking and ends alike |
| Async.ClosedAlive | pybricks/tools/pb_type_async.c:37-62 | a handle closed at any stage of its life is free, made no further call, and fired its hook once if it has one |
| Async.Runtime.WaitForCompletion | pybricks/tools/pb_type_async.c:142-148 | the blocking loop makes exactly the calls up to the first answer that is not AGAIN, and returns the mapped value or raises the error with which awaiting would have ended; it is still waiting exactly while all answers were AGAIN |
| Async.Runtime.WaitOrAwait | pybricks/tools/pb_type_async.c:111-149 | the slot's handle is reused exactly if it was free, otherwise replaced by a new one; a previous operation is stopped if asked for |
| Async.Runtime.RunTask | pybricks/tools/pb_module_tools.c:158-191 | one loop at a time, over any handle; it fails with a pending exception or the error of the task, returns None when the task stops, and its flag is cleared on every exit |
| Async.LoopEndsExactly | pybricks/tools/pb_module_tools.c:177-183 | the loop ends exactly with the first iteration that does not yield or is followed by a pending exception |
| Async.LoopOverAwaitable | pybricks/tools/pb_module_tools.c:172-186 | the loop over an awaitable makes the calls that blocking would make and ends with it |
| AsyncProtocol.RunsKeepShape | pybricks/tools/pb_type_async.c:116-139 | in every run no handle is ever attached to two resources |
| AsyncProtocol.RearmedOnlyAfterOver | pybricks/tools/pb_type_async.c:53-62 | in every run an iteration or a close reported a handle over between any two armings |
| AsyncProtocol.OwnOnlyIffNewestUsed | pybricks/tools/pb_type_async.c:53-62 | in every run nobody steps or ends an operation of somebody else, exactly if each reference used is the newest one to its handle |
| AsyncProtocol.HoldersTouchOnlyTheirOwn | pybricks/tools/pb_type_async.c:53-62 | so it is when holders drop a reference on being told that it is over, and then held operations never share a handle |
| AsyncProtocol.StaleHolderStepsForeignOperation | pybricks/tools/pb_type_async.c:56-58 | an example of the other case: a reference used after StopIteration and a new start steps the new operation |
| AsyncProtocol.StoppedIsTold | pybricks/tools/pb_type_async.c:53-62 | in every run, iterating an operation that is no longer live tells so: no call, no value, and a free handle |
| AsyncProtocol.ReplacedIsTold | pybricks/tools/pb_type_async.c:116-139 | whoever awaits an operation that was replaced by a newer one on its resource is told at the next iteration |
| AsyncProtocol.LiveOperationsAreIsolated | pybricks/tools/pb_type_async.c:111-140 | in every run a live operation is in the state that its own iterations alone produce from its own configuration |
| AsyncProtocol.OneHandleForOneAtATime | pybricks/tools/pb_type_async.c:123-137 | a resource used for one operation at a time never allocates a second handle |
| AsyncProtocol.NewOperationWins | pybricks/tools/pb_type_async.c:116-139 | for a resource that stops the previous operation, only the newest handle ever attached can still call its protothread |
| Waits.Tools.FindFree | pybricks/tools/pb_module_tools.c:80-89 | finds the first wait handle that is free, if there is one |
| Waits.Tools.Wait | pybricks/tools/pb_module_tools.c:66-101 | a wait lands in the first free static handle, else in new memory, with its wrapped deadline; nothing else changes |
| Waits.DeadlineWraps | pybricks/tools/pb_module_tools.c:91-98 | the stored deadline is start plus duration modulo 2^32, also for negative durations |
| Waits.NeverEarlyIffShort | pybricks/tools/pb_module_tools.c:61-64 | no poll before the deadline ends a wait, across clock wraps, exactly for durations up to 2^31 + 1 |
| Waits.PassedAfterDeadline | lib/pbio/src/util.c:91-93 | polls up to 2^31 - 2 ms after the deadline find it passed |
| Waits.WaitFromStartToFinish | pybricks/tools/pb_module_tools.c:61-100 | a wait yields until the first poll that finds the deadline passed, is never early, and keeps its deadline |
| Waits.ZeroWaitYieldsOnce | pybricks/tools/pb_module_tools.c:94-95 | a zero wait yields exactly once without looking at the clock |
| Waits.LiveWaitsKeepDeadlines | pybricks/tools/pb_module_tools.c:59-100 | in every run of overlapping operations a live wait has the deadline it was started with |
| Task.TaskCollection.constructor | pybricks/tools/pb_type_task.c:138-155 | tasks start not done with None; one must finish in a race, else all |
| Task.TaskCollection.Close | pybricks/tools/pb_type_task.c:47-65 | closes exactly the tasks that are not done, at all depths |
| Task.TaskCollection.StepTask | pybricks/tools/pb_type_task.c:87-101 | a task that stops is marked done and keeps its value |
| Task.TaskCollection.DoRound | pybricks/tools/pb_type_task.c:75-111 | one round, ended early by enough finished tasks or by an error |
| Task.TaskCollection.Iternext | pybricks/tools/pb_type_task.c:68-131 | round, cancellation and report of one iteration, equal to the function on trees |
| TaskCancellation.CloseReaches | pybricks/tools/pb_type_task.c:47-65 | closing closes a handle anywhere in a tree exactly if no entry above it is done |
| TaskCancellation.CloseTwice | pybricks/tools/pb_type_async.c:37-47 | closing a tree again changes nothing |
| TaskCancellation.IterationReaches | pybricks/tools/pb_type_task.c:75-131 | after one iteration every handle below open entries lives with its hook unused or is free with it fired once |
| TaskCancellation.ErrorResult | pybricks/tools/pb_type_task.c:75-130 | exactly what an error leaves: tasks up to the one that raised took their step, those behind it did not, and all that are not done were closed |
| TaskCancellation.RaisesIffDue | pybricks/tools/pb_type_task.c:75-130 | the outermost iteration raises an error exactly if a live protothread, to which the rounds at all levels get, answers with it |
| TaskCancellation.NestedCancellation | pybricks/tools/pb_type_task.c:126-130 | when a protothread anywhere answers with an error, the outermost iteration raises it, and every handle below open entries is free and its hook fired exactly once; handles below done entries are untouched |
| TaskCancellation.FinishedTasksAreUntouched | pybricks/tools/pb_type_task.c:52-55 | a task that finished in the broken round keeps what its own iteration left |
| TaskCancellation.RaisesIffLeafRaises | pybricks/tools/pb_type_task.c:126-130 | the outermost iteration raises an error exactly if some leaf's protothread was called in it and answered with it |
| TaskCancellation.HooksFireAtMostOnce | pybricks/tools/pb_type_async.c:37-47 | over any sequence of iterations and closes each close hook fires at most once |
| TaskScheduling.WhileTooFewDone | pybricks/tools/pb_type_task.c:77-118 | until enough tasks are done a collection yields, and each task has been iterated until it stopped and not again |
| TaskScheduling.RaceResult | pybricks/tools/pb_type_task.c:75-125 | a race ends one iteration after its minimum, the lowest index attaining it wins, only it is done and has a value, all others are closed |
| TaskScheduling.WinnerExists | pybricks/tools/pb_type_task.c:75-111 | every race of at least one task has a winner, so that its result is known |
| TaskScheduling.AllResult | pybricks/tools/pb_type_task.c:75-125 | waiting for all ends one iteration after the maximum with the values in argument order, each task iterated exactly until it stopped |
| TaskScheduling.SlowestExists | pybricks/tools/pb_type_task.c:75-111 | of at least one task one is the slowest, so that the result of waiting for all is known |
| TaskScheduling.EmptyCollections | pybricks/tools/pb_type_task.c:115-125 | all of nothing ends at once, a race of nothing never |
| TaskScheduling.AwaitableFinishes | pybricks/tools/pb_type_async.c:70-88 | an awaitable with n AGAIN answers is a task that yields n times |
| Matrix.MakeNew | pybricks/tools/pb_type_matrix.c:20-80 | the entries are the given rows; a single entry is a number, and rows that are empty or of different lengths are an error |
| Matrix.MatrixObj.Add | pybricks/tools/pb_type_matrix.c:181-222 | new memory that denotes the entrywise sum or difference, or an error exactly if the shapes differ |
| Matrix.MatrixObj.Dot | pybricks/tools/pb_type_matrix.c:249-258 | the inner loop computes the sum of products, reading both factors through their views |
| Matrix.MatrixObj.Mul | pybricks/tools/pb_type_matrix.c:225-272 | new memory that denotes the matrix product, a number exactly if it is 1x1, an error exactly if the shapes do not conform |
| Matrix.MatrixObj.Scale | pybricks/tools/pb_type_matrix.c:275-288 | a view on the same memory with every entry scaled |
| Matrix.MatrixObj.T | pybricks/tools/pb_type_matrix.c:303-316 | a view on the same memory that denotes the transpose |
| Matrix.MatrixObj.GetScalar | pybricks/tools/pb_type_matrix.c:291-300 | the entry, or an error exactly outside the shape |
| Matrix.MatrixObj.SubscrPair | pybricks/tools/pb_type_matrix.c:429-463 | the entry at a row and column that may count from the end, or IndexError |
| Matrix.MatrixObj.Subscr | pybricks/tools/pb_type_matrix.c:410-463 | in both layouts a linear index in range, also a negative one, gives the entry at its quotient and remainder by the columns |
| Matrix.BoundsCheckSoundIff | pybricks/tools/pb_type_matrix.c:424-458 | all linear indices out of range are rejected exactly by rows or for a single column |
| Matrix.ScaledTerms | pybricks/tools/pb_type_matrix.c:242-243 | multiplying the scales afterwards equals scaling every factor |
| Matrix.Multiply | pybricks/tools/pb_type_matrix.c:384-394 | a product with a number on either side scales, and is the product whenever the number stands for a conforming 1x1 matrix |
| Matrix.MakeBitmap | pybricks/tools/pb_type_matrix.c:549-563 | the entries are the low bits of the word, highest first |
| Matrix.BitsAreNumber | pybricks/tools/pb_type_matrix.c:558-560 | the bits are 0 or 1 and, weighted by powers of two, sum to the word modulo 2^mn |
| MatrixAlgebra.TransposeOfProduct | pybricks/tools/pb_type_matrix.c:225-316 | (AB)' = B'A' for all views |
| MatrixAlgebra.UnitColumnPicks | pybricks/tools/pb_type_matrix.c:249-258 | multiplying by a unit column gives that column of the left factor |
| MatrixAlgebra.IdentityIsNeutral | pybricks/tools/pb_type_matrix.c:225-272 | AI = A and IA = A |
| MatrixAlgebra.ProductAssociates | pybricks/tools/pb_type_matrix.c:225-272 | (AB)C = A(BC), also when AB or BC collapsed to a number |
| MatrixAlgebra.ProductDistributes | pybricks/tools/pb_type_matrix.c:181-272 | A(B+C) = AB + AC and A(B-C) = AB - AC |
| MatrixAlgebra.ScaleMovesThroughProduct | pybricks/tools/pb_type_matrix.c:242-288 | (xA)B = x(AB) |
| Sums.Exchange | pybricks/tools/pb_type_matrix.c:249-258 | the two orders of the double sum behind associativity agree |
| BleCodec.WireFormat | pybricks/common/pb_type_ble.c:63-84 | type codes, headers and contents of all truth values, floats, strings and bytes as they go over the air |
| BleCodec.WireFormatOfPacket | pybricks/common/pb_type_ble.c:314-319 | the four header fields in front of every payload |
| BleCodec.WireFormatOfMessages | pybricks/common/pb_type_ble.c:292-312 | a single value has a zero byte in front, a tuple is the sequence of its encodings |
| BleCodec.WireFormatOfInts | pybricks/common/pb_type_ble.c:200-222 | every integer in the fewest of one, two or four bytes, in two's complement, lowest byte first |
| BleCodec.Append | pybricks/common/pb_type_ble.c:163-174 | appends header and content, refused exactly if they do not fit |
| BleCodec.Encode | pybricks/common/pb_type_ble.c:190-248 | appends the encoding of a value, with integers in the narrowest width |
| BleCodec.Broadcast | pybricks/common/pb_type_ble.c:272-321 | the advertisement of a message, refused exactly if its payload exceeds 26 bytes |
| BleCodec.Decode | pybricks/common/pb_type_ble.c:334-401 | the value at an index and the next index, or the error for bad types and widths, for any bytes |
| BleCodec.DecodeMessage | pybricks/common/pb_type_ble.c:460-480 | one value or a tuple of at most 26 values up to the recorded size, for any bytes and any recorded size |
| BleCodec.BadHeaders | pybricks/common/pb_type_ble.c:334-401 | exactly which header bytes are bad data |
| BleCodec.BadValueIsRefused | pybricks/common/pb_type_ble.c:460-480 | a tuple with a bad value anywhere is refused |
| BleCodec.DecodeEncoded | pybricks/common/pb_type_ble.c:190-401 | decoding an encoded value gives it back and stops right behind it |
| BleCodec.PayloadRoundTrip | pybricks/common/pb_type_ble.c:292-480 | a payload that fits decodes to the message that was encoded, whatever lies behind the recorded size |
| BleCodec.PayloadInjective | pybricks/common/pb_type_ble.c:298-308 | different messages have different payloads, so x and (x,) are told apart |
| BleChannel.FilterIsFloor | pybricks/common/pb_type_ble.c:143-144 | the wrapping unsigned computation is the floor of the true weighted average |
| BleChannel.FilterStaysBetween | pybricks/common/pb_type_ble.c:143-144 | the filtered value lies between any bounds of old value and sample |
| BleChannel.FirstSampleUnchanged | pybricks/common/pb_type_ble.c:136-144 | the first sample after start or timeout is stored unchanged exactly if the clock shows at least 512 ms since the sample before |
| BleChannel.WeighedByElapsedTime | pybricks/common/pb_type_ble.c:136-144 | a sample is weighed by the elapsed time up to 512 ms, across wraps of the clock |
| BleChannel.RunsShowAverage | pybricks/common/pb_type_ble.c:136-427 | in every run that the clock measures correctly the stored value is the average of the samples weighed by the real time between them, or the marker |
| BleChannel.RunsStayConsistent | pybricks/common/pb_type_ble.c:136-144 | in every run in time the timestamp is that of the last sample and the value lies in the range of all samples |
| BleChannel.NoneIffStale | pybricks/common/pb_type_ble.c:424-458 | in every run in time a look finds the marker exactly if there was no sample in the last 1000 ms, and else a value in the range of the samples |
| BleChannel.ShortGapsAreInTime | pybricks/common/pb_type_ble.c:136-137 | all gaps below 2^32 ms are in time and measured correctly |
| BleChannel.StaleIffOldIffUndisturbed | pybricks/common/pb_type_ble.c:136-427 | in every run, with gaps of any length, the marker is right at all times exactly if the 32-bit clock disturbs no step |
| BleChannel.LookIsRightIff | pybricks/common/pb_type_ble.c:424-427 | a look at unmarked data is right exactly for gaps up to 1000 ms or above 1000 ms modulo 2^32 |
| BleChannel.LongGapLooksFresh | pybricks/common/pb_type_ble.c:424-427 | an example: a gap of 2^32 ms defeats the timeout |
| BleChannel.NewTable | pybricks/common/pb_type_ble.c:541-570 | ValueError exactly for channel numbers out of range or too many; all channels start marked and outdated |
| BleChannel.Table.Lookup | pybricks/common/pb_type_ble.c:93-108 | the first entry for the channel, or null exactly if there is none |
| BleChannel.Table.HandleObserveEvent | pybricks/common/pb_type_ble.c:121-150 | updates exactly the entry of the channel, for advertisements of the right kind only |
| BleChannel.Table.GetChannelData | pybricks/common/pb_type_ble.c:414-430 | resets exactly the entry looked at, if it is too old; an error exactly for channels not configured |
| BleChannel.Table.Observe | pybricks/common/pb_type_ble.c:443-481 | None for a marked entry, otherwise its decoded payload, also where headers lead behind the entry |
| BleChannel.ObserveOutOfRange | pybricks/common/pb_type_ble.c:414-421 | numbers that differ from a configured channel by a multiple of 256 raise no ValueError |
| BleChannel.SentIsObserved | pybricks/common/pb_type_ble.c:121-481 | a message that fits is observed as it was sent, through the packet, the copy and the table, whatever lies behind |
| Ota.OtaHandler.Begin | bricks/picow/ota_handler.c:38-52 | initializes the slot, exactly if no upload is in progress |
| Ota.OtaHandler.WritePages | bricks/picow/ota_handler.c:78-84 | writes whole pages right behind the image, or ends the upload exactly if the driver fails |
| Ota.OtaHandler.FlushWholePages | bricks/picow/ota_handler.c:74-93 | flash and buffer together still hold the stream, with room in the buffer, unless the driver failed the write |
| Ota.OtaHandler.Write | bricks/picow/ota_handler.c:55-97 | appends the chunk to the stream with no failed write, or ends the upload because the driver failed the last write |
| Ota.OtaHandler.FlushRest | bricks/picow/ota_handler.c:105-119 | the image is the stream padded with 0xFF to whole pages, exactly unless bytes were left and the driver fails their write |
| Ota.OtaHandler.End | bricks/picow/ota_handler.c:100-140 | marks the padded stream exactly if its last write and the check succeed; each error code exactly in its case, the padded stream being written also when the check fails |
| Ota.OtaHandler.Abort | bricks/picow/ota_handler.c:157-162 | ends the upload without a request |
| Ota.PaddedIs | bricks/picow/ota_handler.c:105-110 | the padding is as few bytes 0xFF as make the length a multiple of 256 |
| OtaSession.UploadSession.PostBegin | bricks/picow/main.c:89-107 | accepts an upload exactly at the right place and when none is in progress |
| OtaSession.UploadSession.PostReceiveData | bricks/picow/main.c:109-130 | appends all chunks to the stream with no failed write, or gives the upload up because the driver failed the last write |
| OtaSession.UploadSession.PostFinished | bricks/picow/main.c:132-147 | performs the update to the padded stream exactly if an upload is in progress and its last write and the check succeed |
| OtaSession.ReceivingSince | bricks/picow/ota_handler.c:60-96 | the image consists of contiguous whole pages written since the initialization |
| OtaSession.UpdateOnlyAfterVerifiedImage | bricks/picow/main.c:132-147 | in every run an update follows marking, that a passed check over the exact length, and that successful contiguous writes alone since the latest initialization |
| OtaSession.MarkedOncePerBegin | bricks/picow/ota_handler.c:133-136 | between two markings there is an initialization |
| OtaSession.Upload | bricks/picow/main.c:89-147 | for every division of a stream into packets and buffers, the update to the padded stream is performed exactly if no write fails and the check passes |
| OtaSession.UploadSplit | bricks/picow/main.c:89-147 | the same for a stream that is cut at any places |
| OtaSession.UpdatedImageIsWritten | bricks/picow/ota_handler.c:60-140 | the image that an update is made to is what was written from address 0 on since the initialization, then checked as a whole and marked |
| Uart.UartDevice.WaitUntil | pybricks/iodevices/pb_type_uart_device.c:228-239 | busy while a pattern length is recorded, an error for the empty pattern |
| Uart.UartDevice.ReadPattern | pybricks/iodevices/pb_type_uart_device.c:205-218 | consumes the pattern, or up to and including the first byte that differs |
| Uart.UartDevice.WaitUntilIterOnce | pybricks/iodevices/pb_type_uart_device.c:194-219 | a poll terminates and consumes exactly what the search on the waiting bytes consumes |
| Uart.ScanResumes | pybricks/iodevices/pb_type_uart_device.c:199-218 | stopping for lack of bytes and resuming is the same as never stopping |
| Uart.ScanIs | pybricks/iodevices/pb_type_uart_device.c:199-218 | the search is determined: where it waits, where it succeeds, and that a broken match drops its bytes and the one that broke it, and nothing else |
| Uart.FailureLeavesTooFew | pybricks/iodevices/pb_type_uart_device.c:199-202 | a search that fails leaves fewer bytes than the pattern has |
| Uart.FoundUnlessRunInto | pybricks/iodevices/pb_type_uart_device.c:199-218 | every occurrence is found at its end unless a match begun before it runs into it |
| Uart.FoundBehindNoise | pybricks/iodevices/pb_type_uart_device.c:199-218 | so it is behind any bytes that differ from the first byte of the pattern |
| Uart.ArrivalIndependence | pybricks/iodevices/pb_type_uart_device.c:194-219 | for every interleaving of arrivals and polls the outcome and the bytes left are those of one search over the whole stream |
| Uart.SuccessEndsWithPattern | pybricks/iodevices/pb_type_uart_device.c:205-218 | on success the last bytes consumed are the pattern |
| Uart.FindsEveryOccurrenceIffUniform | pybricks/iodevices/pb_type_uart_device.c:212-216 | every occurrence is found exactly for patterns of equal bytes |
| UartWaits.RunsFollowProtocol | pybricks/iodevices/pb_type_uart_device.c:241-246 | every run of the device is a run of the awaitable runtime |
| UartWaits.AcceptedIffAllCompleted | pybricks/iodevices/pb_type_uart_device.c:221-239 | in every run a wait is accepted exactly if the return map of every wait accepted before has run |
| UartWaits.LostWaitRefusesForEver | pybricks/iodevices/pb_type_uart_device.c:221-239 | once a wait can no longer complete, every later wait is refused, whatever happens |
| UartWaits.ReadLosesWait | pybricks/iodevices/pb_type_uart_device.c:147-162 | in every run, reading while a wait is under way loses it |
| UartWaits.CloseLosesWait | pybricks/tools/pb_type_async.c:37-47 | so does closing it |
| Lwp3.StaleBytesDoNotMatter | pybricks/iodevices/pb_type_iodevices_lwp3device.c:577-671 | a message of 3 to 20 bytes that says its own length is read back from any slot |
| Lwp3.WhatIsRead | pybricks/iodevices/pb_type_iodevices_lwp3device.c:577-671 | what is read of a notification of any length, malformed ones included |
| Lwp3.Lwp3Device.constructor | pybricks/iodevices/pb_type_iodevices_lwp3device.c:603-615 | an empty ring; the number of slots is cut to a byte |
| Lwp3.IndicesRefineQueue | pybricks/iodevices/pb_type_iodevices_lwp3device.c:572-583 | advancing indices and full flag is insertion into the bounded queue |
| Lwp3.Lwp3Device.HandleNotification | pybricks/iodevices/pb_type_iodevices_lwp3device.c:558-585 | appends the notification and drops the oldest exactly if full |
| Lwp3.Lwp3Device.Read | pybricks/iodevices/pb_type_iodevices_lwp3device.c:641-672 | takes the oldest notification out, and returns it unless its length is implausible |
| Lwp3.ReadWithoutSlots | pybricks/iodevices/pb_type_iodevices_lwp3device.c:603-615 | a device asked to keep a multiple of 256 notifications keeps none, and reading raises an error |
| Lwp3.QueueHoldsNewest | pybricks/iodevices/pb_type_iodevices_lwp3device.c:572-584 | in every run the queue holds the newest notifications not yet removed, and those read are an ordered subsequence of the older ones |
| Lwp3.SlotsHoldMessages | pybricks/iodevices/pb_type_iodevices_lwp3device.c:572-671 | in every run the slots of the device read as exactly the messages of the queue, whatever bytes are left over in them |
| LittleEndian.LeRoundTrip | lib/pbio/include/pbio/util.h:85-103 | integers survive the little-endian bytes |
| MpyContainer.GetBuf | bricks/_common/micropython.c:165-168 | the pointer and the recorded size delimit exactly the data of the entry |
| MpyContainer.Layout | bricks/_common/micropython.c:142-149 | four bytes of size, lowest first, then name, zero and data |
| MpyContainer.Find | bricks/_common/micropython.c:176-187 | terminates with the first entry of the name, or null exactly if there is none |
| MpyContainer.ContainerInjective | bricks/_common/micropython.c:142-149 | the memory determines the entries |

## Left out

- Drivers, the Bluetooth stack, lwIP, the MicroPython VM, garbage collection and argument parsing: oracles, parameters, or not modelled.
- Floating point: matrices are over the reals, a BLE float is its four bytes; printing, norms and `cross` are not modelled.
- User coroutines between collections: leaves of a tree are awaitable handles, and hooks, return maps and drivers neither raise nor call back into the runtime.
- Async.Runtime.RunTask: the task is one awaitable; system processes between iterations are not modelled.
- Task.NextNode: collections inside a collection are values, so the array of an inner collection is not shared with anybody else.
- The argument of a close hook: hooks are counted per handle, not recorded with the parent they are given.
- HoldersTouchOnlyTheirOwn: demands that a holder drops its reference when told it is over, which the source assumes of user code in a comment.
- Iterating a transposed matrix, which walks its storage backwards.
- BleCodec.Decode: what lies in memory behind the 26 bytes of an entry is a parameter, and can be read.
- BLE radio commands, the version query, and restarting of observation after a timeout.
- OtaSession: one connection at a time; progress messages and the rest of the web interface are not modelled.
- UARTDevice: reads and writes other than `wait_until()`; reading a byte that waits never fails.
- UartWaits: waits outside the run loop, which block.
- LWP3 connection handling, the remote control, and writing.
- MpyContainer.Find: memory that is not a concatenation of entries; importing and running scripts.
