# Verified models of the Ameba-RTOS MicroPython drivers

This project models the concurrent protocols and the exact arithmetic inside
the `ameba-rtos-m` port of MicroPython, and proves what they promise.  Each
driver comes as two modules:

- a *machine* (`UartTx` with `UartSwap` and `UartOrder`, `UartRx`, `I2sTx`,
  `I2sRx`, `Ota`, `UsbTransmit`, `RtcAlarm`, `I2cTarget`, `CanSlots`, `NorFlash`, `ThreadList`, `Pwm`,
  `WallClock`, `Bitstream`): a state, the events of driver, interrupt,
  hardware and other threads, a step function, and theorems over every run;
- a *driver* (`UartTxDriver`, ..., `BitstreamDriver`): the source's objects
  and loops as classes and methods that update fields, arrays and linked nodes
  in place, each proved to take exactly the machine's steps, so that the
  theorems hold of it.

`Prelude` has shared vocabulary, `ByteRing` the ring buffer of the UART and
I2S drivers, refined to a bounded queue.

## How concurrency is modelled

Every interleaving is a sequence of events.  In the UART transmitter and the
OTA session the events are single statements; in the USB handshake they are
single operations on mutex, semaphore and endpoint.  Driver methods take a
schedule saying what happens between their statements.  A method that would
wait for ever returns a result that says so when its schedule ends, so nothing
is assumed about progress; where waiting can last for ever, that is proved.

Assumptions, each where the hardware or the scheduler decides:

- UART: the handler runs to completion before the thread moves.  No interrupt
  comes between `ringbuf_get` and `serial_putc` of one pair; `UartSwap` and
  `UartOrder` drop this assumption and prove exactly which writes need it.
- I2S: a block completion is serviced before the next one.
- OTA: one Python thread uses the session.
- RTC: an API call, and a handler run with the vendor's disarm, are one step.
- CAN: `CAN_WriteMsg` and the store into the slot table are one step; every
  finished transmission raises the TX interrupt flag.
- USB: the endpoint works on one transfer at a time and answers HAL_BUSY else.
- I2C target: the protocol layer's request hooks set its state to the
  direction of the request and its stop hook sets it to idle; the handler is
  not re-entered.
- PWM: `pwmout_init` and `pwmout_free` change neither prescaler, and a channel
  starts with a period the timer can make.  Duty fractions are reals, and a
  zero period reads as no number.
- Bitstream: `m_new` has the memory, returns NULL or raises; all three are
  modelled.
- Threads: every list operation runs under the list's mutex.

## Where the code differs from its comments or from what a caller expects

- UART (`machine_uart.c:607-625`): `tx_busy` is set once, before the second
  loop.  A write that does not fit the ring can leave `txdone()` true with
  bytes in the FIFO, and one longer than free space plus ring plus FIFO can
  wait for ever.  Both conditions are exact.
- UART (`machine_uart.c:178-180`): a refill interrupt inside the get/put pair
  of a refill by `write()` swaps two bytes.  Exposed are writes made while the
  interrupt is armed, and writes that do not fit, from the point on where the
  bytes before them can fill the FIFO.  That `txdone()` was true is no
  protection: it is true with the interrupt armed when an older interrupt has
  cleared `tx_busy` between its test and the arming (`machine_uart.c:181-183`).
  The condition is exact.
- USB (`machine_usbserial.c:55-59`): the comment says that after the drain a
  take can only be satisfied by the caller's own completion.  This is so if
  and only if no transfer is in flight when the caller obtains the mutex.
- I2C target (`machine_i2c_target.c:258-265`): a STOP left pending because
  bytes waited in the FIFO is finalised after the requests of the word in
  which the FIFO is found empty, and closes whatever session they have left:
  a read that has just been opened, or none at all.
- CAN (`machine_can.c:144-163`): whoever unsubscribes from IRQ_TX before the
  last of eight finished messages has been reported, and after its interrupt,
  leaves a table that stays full and refuses every send.
- Bitstream (`machine_bitstream.c:294-308`): if `m_new` raises, as
  `machine_uart.c:402-406` expects of it, the DMA channel is not given back.
- Wall clock (`mphalport.c:164-169`): re-basing keeps the subtraction within
  one wrap only if the clock is looked at within every 49.7 days; the comment
  says regardless of how long ago it was.  Each access also loses the time
  between its two counter reads.
- PWM (`machine_pwm.c:211-216`): frequencies above 1 MHz are not refused; they
  give a period of zero and lose every active channel's duty until it is set
  again; no later frequency brings it back.  A new
  channel that gets no frequency keeps the SDK's starting period although the
  timer is shared.
- Threads (`mpthreadport.c:136-138`, `217-223`): a deinit deletes every task but
  the main one, says its comment; a thread that has unlinked itself and not yet
  reached its `vTaskDelete` is no longer listed and outlives it.
- RTC (`machine_rtc.c:61-67`): `alarm_left()` wraps for targets more than
  4294967 seconds ahead.

## Model

| member | source | states |
|---|---|---|
| ByteRing.RingBuf.constructor | ports/ameba-rtos-m/src/machine_uart.c:402-436 | a ring made with one spare slot starts empty with exactly the requested capacity |
| ByteRing.RingBuf.Put | ports/ameba-rtos-m/src/machine_uart.c:227-230 | the index arithmetic refines a bounded queue: a put appends, and fails exactly when the queue is full, leaving it unchanged |
| ByteRing.RingBuf.Get | ports/ameba-rtos-m/src/mphalport.c:67-73 | a get removes and returns the oldest byte, and reports an empty ring instead of returning one |
| ByteRing.RingBuf.Avail | ports/ameba-rtos-m/src/machine_uart.c:178-180 | the modular index difference is the number of queued bytes |
| ByteRing.RingBuf.Free | ports/ameba-rtos-m/src/machine_uart.c:608-611 | the modular index difference is the number of bytes that still fit |
| UartTx.FillKeepsBytes | ports/ameba-rtos-m/src/machine_uart.c:177-184 | each statement of the refill moves bytes along ring, hand, FIFO without losing, duplicating or swapping any |
| UartTx.StepConserves | ports/ameba-rtos-m/src/machine_uart.c:177-184 | wire ++ FIFO ++ byte in hand ++ ring stays equal to what write() has queued, over every step of thread, interrupt and hardware |
| UartTx.BusyIsArmed | ports/ameba-rtos-m/src/machine_uart.c:177-184 | at every idle moment of every run, with calls of any length and even if interrupts split the get/put pair, a set tx_busy means the one-shot interrupt is armed |
| UartTx.HandlerRearmsIffBusy | ports/ameba-rtos-m/src/machine_uart.c:278-289 | the interrupt is one-shot: in every run a handler that returns has re-armed it if and only if the driver is still busy |
| UartTx.BytesConserved | ports/ameba-rtos-m/src/machine_uart.c:595-627 | conservation and order over all interleavings of calls of any length, TX interrupts and shifting; no ringbuf_put can fail |
| UartTx.FittingWritesTruthful | ports/ameba-rtos-m/src/machine_uart.c:544-552 | in every run of writes that fit, outside write() not-busy means ring and FIFO empty, and busy means the one-shot interrupt is armed |
| UartTx.CalmWritesNeedNoPairing | ports/ameba-rtos-m/src/machine_uart.c:544-552 | a caller that writes only what fits and only when txdone() is true gets both guarantees even if interrupts split the get/put pair |
| UartTx.LongWriteCanLie | ports/ameba-rtos-m/src/machine_uart.c:612-625 | for every write that does not fit there is an interleaving after which txdone() is wrong, because only the first loop is followed by setting tx_busy |
| UartTx.TxdoneTruthfulIffFits | ports/ameba-rtos-m/src/machine_uart.c:607-625 | exact condition: txdone() stays truthful through and after one write, also one made while txdone() is wrong, under every interleaving if and only if the data fits the free ring space |
| UartTx.BlockedForever | ports/ameba-rtos-m/src/machine_uart.c:618-621 | once write() waits for room with no interrupt armed, no continuation of any kind ever lets it go on |
| UartTx.RunKeepsProgress | ports/ameba-rtos-m/src/machine_uart.c:607-625 | a write cannot stop short of its data before the ring and the FIFO have both been filled behind it |
| UartTx.VeryLongWriteCanBlock | ports/ameba-rtos-m/src/machine_uart.c:618-625 | a write longer than free space plus a whole ring plus a whole FIFO can end up waiting for ever |
| UartTx.WriteCanBlockIffVeryLong | ports/ameba-rtos-m/src/machine_uart.c:615-625 | exact condition for write() to be able to wait for ever, in both directions |
| UartSwap.SwapInRing | ports/ameba-rtos-m/src/machine_uart.c:177-180 | two different neighbours in the ring while the thread refills with the interrupt armed can be put on the wire in the wrong order |
| UartSwap.SwapWhileFeeding | ports/ameba-rtos-m/src/machine_uart.c:618-625 | the final loop of a long write can bring any two later neighbours there, by feeding behind a full FIFO |
| UartSwap.LongWriteCanSwap | ports/ameba-rtos-m/src/machine_uart.c:607-625 | a write that does not fit can be reordered although txdone() was true when it was made |
| UartSwap.ExposedCanSwap | ports/ameba-rtos-m/src/machine_uart.c:595-627 | every exposed pair of pending bytes can be put on the wire swapped, whatever flag, interrupt, ring and FIFO were when the write was made |
| UartOrder.StepAlike | ports/ameba-rtos-m/src/machine_uart.c:177-184 | each step keeps bytes that are all equal beyond a prefix equal, with both thread and handler holding one |
| UartOrder.NotExposedKeepsOrder | ports/ameba-rtos-m/src/machine_uart.c:595-627 | a write made at any idle moment, none of whose pending bytes is exposed, keeps its order under every interleaving |
| UartOrder.UnpairedOrderIff | ports/ameba-rtos-m/src/machine_uart.c:595-627 | exact condition without the pairing assumption, at every idle moment whose order is intact, for data, ring and FIFO contents of any kind: order is kept under every interleaving if and only if no pair of pending bytes is exposed |
| UartOrder.DistinctBytesInOrderIff | ports/ameba-rtos-m/src/machine_uart.c:595-627 | for distinct neighbours and a FIFO shorter than the ring, order is kept if and only if txdone() was true, the TX interrupt was off and the data fits |
| UartTxDriver.TxPort.constructor | ports/ameba-rtos-m/src/machine_uart.c:438-442 | a fresh port is the initial state of the machine: empty ring and FIFO, not busy, interrupt off |
| UartTxDriver.TxPort.TxIrq | ports/ameba-rtos-m/src/machine_uart.c:278-294 | the handler's whole run is machine steps; it clears tx_busy exactly when the ring is empty, returns with the interrupt on exactly while busy, and reports IRQ_TXIDLE exactly with an empty ring (if triggered), the FIFO being empty too |
| UartTxDriver.TxPort.FillTxFifo | ports/ameba-rtos-m/src/machine_uart.c:177-184 | the refill loop, preempted between any two statements, takes the machine from the first refill point to its return |
| UartTxDriver.TxPort.PutByte | ports/ameba-rtos-m/src/machine_uart.c:609-610 | neither ringbuf_put of write() can fail: there is room at both places |
| UartTxDriver.TxPort.QueueWhatFits | ports/ameba-rtos-m/src/machine_uart.c:607-611 | the first loop queues a prefix of the data and stops at the point where tx_busy is set |
| UartTxDriver.TxPort.WaitForRoom | ports/ameba-rtos-m/src/machine_uart.c:619-621 | the inner wait ends with room, or with the schedule used up and the ring still full |
| UartTxDriver.TxPort.Write | ports/ameba-rtos-m/src/machine_uart.c:595-627 | EINVAL, the empty write and the full one: a returning write has queued each byte exactly once, and wire ++ FIFO ++ ring is everything ever written; one that is still waiting has used up its schedule and faces a full ring |
| UartTxDriver.TxPort.Settled | ports/ameba-rtos-m/src/machine_uart.c:595-627 | outside write() nothing that was ever written is anywhere but on the wire, in the FIFO or in the ring, in order |
| UartTxDriver.TxPort.TxDoneMeansSent | ports/ameba-rtos-m/src/machine_uart.c:544-552 | on the driver's own fields: after fitting writes, a clear tx_busy means the wire has everything, a set one that the interrupt is enabled |
| UartTxDriver.TxPort.TxDone | ports/ameba-rtos-m/src/machine_uart.c:544-552 | txdone() is false on an uninitialised port and otherwise the negated flag of the machine state |
| UartRx.IrqCounts | ports/ameba-rtos-m/src/machine_uart.c:223-266 | one interrupt keeps, loses and discards exactly as many bytes as batch size, ring space and break flag say |
| UartRx.IrqKept | ports/ameba-rtos-m/src/machine_uart.c:223-266 | what an interrupt adds to the ring is exactly the bytes it marks as kept, in order |
| UartRx.StepAccounted | ports/ameba-rtos-m/src/machine_uart.c:225-266 | bytes read plus ring equals the kept bytes, before and after every interrupt and every read |
| UartRx.StepFates | ports/ameba-rtos-m/src/machine_uart.c:223-266 | for each byte of each batch, by position: the last one of a break batch is discarded, of the others those after the ring has filled are lost, the rest kept |
| UartRx.ReceivedInOrder | ports/ameba-rtos-m/src/machine_uart.c:214-266 | over any run: read bytes ++ ring are the received ones, in order, without those lost to a full ring or injected by a break, and every byte's fate is the one its position gives it |
| UartRx.LossIffFull | ports/ameba-rtos-m/src/machine_uart.c:227-230 | an interrupt loses bytes if and only if it offers more than the ring has room for |
| UartRxDriver.RxPort.constructor | ports/ameba-rtos-m/src/machine_uart.c:374-382 | any requested size is clamped to 32..8192, so the ring with its spare slot has a 16-bit size |
| UartRxDriver.RxPort.DrainFifo | ports/ameba-rtos-m/src/machine_uart.c:223-233 | the lagging loop offers all bytes but the last to the ring, which stays pending, and reports whether it offered any |
| UartRxDriver.RxPort.RxIrq | ports/ameba-rtos-m/src/machine_uart.c:214-277 | the handler is one step of the model, and reports RX, RXIDLE and BREAK exactly when triggered and seen |
| UartRxDriver.RxPort.WaitForByte | ports/ameba-rtos-m/src/machine_uart.c:566-576 | the wait ends with a byte, or times out only with an empty ring past its deadline |
| UartRxDriver.RxPort.Read | ports/ameba-rtos-m/src/machine_uart.c:556-582 | whatever interrupts come in between, the bytes returned are those removed from the ring, in order; EAGAIN and short counts only at the moment the matching timeout has passed with an empty ring, and otherwise it waits for the whole schedule |
| UartRxDriver.RxPort.AllAccounted | ports/ameba-rtos-m/src/machine_uart.c:206-266 | at any moment, read bytes ++ the real ring's contents are the kept bytes of everything that arrived |
| I2sSizing.HalvesFit | ports/ameba-rtos-m/src/machine_i2s.c:450-456 | for every ibuf of at least 256 each half is a whole number of cache lines and frames, at least 64 bytes, and fits a ring with one spare slot |
| I2sSizing.BufferIsLargest | ports/ameba-rtos-m/src/machine_i2s.c:450-456 | for every ibuf the buffer is the largest multiple of 64 within a quarter of it, and at least 128 |
| I2sSizing.AlignedViewInside | ports/ameba-rtos-m/src/machine_i2s.c:457-461 | the aligned view of the over-allocated block lies inside it |
| I2sTx.FeedKeepsBytes | ports/ameba-rtos-m/src/machine_i2s.c:159-171 | a refill moves a half from the ring or writes silence, losing no byte and leaving the other half alone |
| I2sTx.StartInSync | ports/ameba-rtos-m/src/machine_i2s.c:513-547 | start_transfer establishes the invariant with both halves loaded from the ring |
| I2sTx.StartLoadsBoth | ports/ameba-rtos-m/src/machine_i2s.c:513-547 | before the start each half gets the oldest samples there are for it, or silence |
| I2sTx.StepInSync | ports/ameba-rtos-m/src/machine_i2s.c:192-218 | pushes, completions, handler calls and error interrupts each keep driver and hardware in step and all bytes accounted for |
| I2sTx.PlaysWhatWasPushed | ports/ameba-rtos-m/src/machine_i2s.c:159-218 | in every run dma_half is the playing half (or the other one while a completion waits), and played samples ++ loaded ++ ring are exactly the bytes pushed, whole blocks only |
| I2sTx.RefillLeavesPlayingHalf | ports/ameba-rtos-m/src/machine_i2s.c:188-208 | the handler never writes to the half the hardware is transferring |
| I2sTx.SilenceIffUnderrun | ports/ameba-rtos-m/src/machine_i2s.c:159-171 | a refill is silence if and only if the ring has less than a half, and takes exactly a half from it otherwise |
| I2sTx.FullRingRelieved | ports/ameba-rtos-m/src/machine_i2s.c:159-171 | the next block completion takes a full half out of a full ring |
| I2sRx.StepInSync | ports/ameba-rtos-m/src/machine_i2s.c:220-242 | each event keeps driver and hardware in step and what was kept accounted for |
| I2sRx.StepCompletes | ports/ameba-rtos-m/src/machine_i2s.c:222-242 | each step adds to the drained-or-waiting halves exactly the half the hardware completed |
| I2sRx.CapturesWholeHalves | ports/ameba-rtos-m/src/machine_i2s.c:173-242 | in every run the handler drains exactly the completed halves, once and in order, each appended whole or dropped whole |
| I2sRx.FramesStayAligned | ports/ameba-rtos-m/src/machine_i2s.c:319-327 | overruns never break the 8-byte frame alignment of what is read |
| I2sRx.DroppedIffNoRoom | ports/ameba-rtos-m/src/machine_i2s.c:181-185 | a half is dropped if and only if the ring has room for less than a half |
| I2sDriver.Transmitter.FeedHalf | ports/ameba-rtos-m/src/machine_i2s.c:159-171 | in place: the half gets the ring's oldest bytes or zeros, the ring loses exactly those, the other half is untouched |
| I2sDriver.Transmitter.constructor | ports/ameba-rtos-m/src/machine_i2s.c:474-507 | buffers of the computed sizes, both halves fed, in step with the hardware |
| I2sDriver.Transmitter.GdmaDone | ports/ameba-rtos-m/src/machine_i2s.c:192-218 | completion and error interrupts are the model's steps, an error alone changes nothing, and the playing half's bytes stay unchanged |
| I2sDriver.Receiver.DrainHalf | ports/ameba-rtos-m/src/machine_i2s.c:176-186 | in place: the ring gets all of the half or none of it |
| I2sDriver.Receiver.constructor | ports/ameba-rtos-m/src/machine_i2s.c:450-507 | a receiver starts in step, with halves of whole frames |
| I2sDriver.Receiver.GdmaDone | ports/ameba-rtos-m/src/machine_i2s.c:222-242 | completion and error interrupts are the model's steps on the real buffers, and an error alone changes nothing |
| I2sDriver.Receiver.Pop | ports/ameba-rtos-m/src/machine_i2s.c:322-326 | readinto()'s pop returns the oldest byte, or none exactly when the ring is empty |
| Ota.StepStreams | ports/ameba-rtos-m/src/modota.c:38-55 | every statement of either thread keeps delivered ++ stream equal to written, and eof, finished, result and semaphore consistent |
| Ota.NothingLost | ports/ameba-rtos-m/src/modota.c:38-55 | for every schedule the chunks handed over are a prefix of what was written; once the callback has returned 0 they are all of it |
| Ota.FinishedIsFinal | ports/ameba-rtos-m/src/modota.c:147-151 | after finish() nothing more is ever accepted |
| Ota.EofEndsStream | ports/ameba-rtos-m/src/modota.c:43-53 | after eof the callback returns at most one chunk per byte still in the stream |
| Ota.EmptyStreamEnds | ports/ameba-rtos-m/src/modota.c:43-53 | with eof set and an empty stream the next three statements of the callback return 0 |
| Ota.CallbackReturns | ports/ameba-rtos-m/src/modota.c:43-53 | wherever the callback is, its next three statements return if and only if there is data or eof: with data the oldest `len` bytes, without it the 0 that ends the image |
| Ota.ResultIsFinal | ports/ameba-rtos-m/src/modota.c:61-63 | the OTA task's verdict is OK exactly if ota_start returned OTA_OK, is never changed, and ends all sending |
| Ota.GiveEndsFinish | ports/ameba-rtos-m/src/modota.c:63-64 | finish() gets going again with the semaphore the task gives last, and not before |
| Ota.PassFillsStream | ports/ameba-rtos-m/src/modota.c:162-171 | a pass of write() sends what fits, and the call is over exactly if that is everything |
| Ota.EofTestAloneLosesBytes | ports/ameba-rtos-m/src/modota.c:49-52 | a byte sent between the timed-out receive and the eof test is still in the stream: without the second receive it would be lost |
| OtaDriver.OtaSession.constructor | ports/ameba-rtos-m/src/modota.c:76-102 | a new session is the model's initial state with an 8 KiB stream |
| OtaDriver.OtaSession.TakeChunk | ports/ameba-rtos-m/src/modota.c:44-47 | a receive returns the oldest bytes, at most `len`, and removes exactly those |
| OtaDriver.OtaSession.SendSome | ports/ameba-rtos-m/src/modota.c:162-171 | one pass of the loop fails if and only if the OTA task has returned, and otherwise sends exactly what fits and the stream accepts |
| OtaDriver.OtaSession.SendAll | ports/ameba-rtos-m/src/modota.c:160-172 | the loop puts the data into the stream in order, whatever the partial sends; EIO exactly if the OTA task has returned; still sending only with the schedule used up, and with the stream full unless the last send was cut short |
| OtaDriver.OtaSession.Write | ports/ameba-rtos-m/src/modota.c:147-174 | EALREADY, EIO and success: a returning write has streamed exactly its data, a failing one a prefix; it fails exactly if the OTA task has returned, and otherwise goes on for the whole schedule |
| OtaDriver.OtaSession.LookAtEof | ports/ameba-rtos-m/src/modota.c:49-53 | the eof branch goes on polling exactly without eof; else it returns the oldest chunk, or 0 exactly with an empty stream and everything ever written delivered |
| OtaDriver.OtaSession.UserRead | ports/ameba-rtos-m/src/modota.c:38-55 | -1 without an active session; else a non-empty chunk of at most `len` bytes, or 0 only when all that was written has been delivered and nothing more can be; still polling only with the schedule used up and no eof |
| OtaDriver.OtaSession.FinishSession | ports/ameba-rtos-m/src/modota.c:180-201 | finish() is refused the second time, sets eof, returns only after the OTA task has, gives up the active session, and reports the task's result; still waiting only with the schedule used up and the semaphore not given |
| UsbTransmit.CallerStepCore | ports/ameba-rtos-m/src/machine_usbserial.c:63-92 | what one statement of a caller may do to mutex, semaphore and transfer, and what the caller may rely on after it |
| UsbTransmit.StepSafe | ports/ameba-rtos-m/src/machine_usbserial.c:63-92 | the invariant of mutex, semaphore, transfer and every caller's position is kept by each step, completions included |
| UsbTransmit.HandshakeSafe | ports/ameba-rtos-m/src/machine_usbserial.c:63-92 | over all interleavings at most one caller negotiates, and a true return means the caller's own transfer completed unless the semaphore was already given when it was accepted |
| UsbTransmit.StaleIffOlderCompleted | ports/ameba-rtos-m/src/machine_usbserial.c:68-81 | the semaphore is already given at the accepted transmit if and only if an older transfer was in flight when the drain, or the wait after HAL_BUSY, ended |
| UsbTransmit.OwnTokenDecides | ports/ameba-rtos-m/src/machine_usbserial.c:83-88 | without a stale token the last wait succeeds if and only if the caller's own transfer has completed; its timeout is possible exactly otherwise |
| UsbTransmit.GivesUpOnlyUnfinished | ports/ameba-rtos-m/src/machine_usbserial.c:83-88 | in every run, whatever ends the last wait, the result is true exactly if the caller's own transfer has completed by then |
| UsbTransmit.BusyIsRetried | ports/ameba-rtos-m/src/machine_usbserial.c:74-81 | a first HAL_BUSY is waited out, with a token or without, and the retry alone decides |
| UsbTransmit.DrainEnds | ports/ameba-rtos-m/src/machine_usbserial.c:71-72 | the drain loop empties the binary semaphore within two takes |
| UsbTransmit.CleanStaysHonest | ports/ameba-rtos-m/src/machine_usbserial.c:47-59 | with nothing in flight when the mutex is obtained, the rest of the call can only be satisfied by its own completion |
| UsbTransmit.LateCompletionDeceives | ports/ameba-rtos-m/src/machine_usbserial.c:47-59 | with an older transfer still in flight, some interleaving makes the call return true although its own transfer has not completed |
| UsbTransmit.HonestIffNothingInFlight | ports/ameba-rtos-m/src/machine_usbserial.c:55-59 | exact condition for the guarantee the comment claims: it holds if and only if no transfer is in flight when the caller has the mutex |
| UsbDriver.OthersStep | ports/ameba-rtos-m/src/machine_usbserial.c:60-66 | what the rest of the system cannot change while one caller holds the mutex |
| UsbDriver.Shared.TransferDone | ports/ameba-rtos-m/src/machine_usbserial.c:125-128 | the completion callback is the model's completion step |
| UsbDriver.Shared.TakeMutex | ports/ameba-rtos-m/src/machine_usbserial.c:64-66 | waits while the other callers and the hardware proceed; the caller holds the mutex afterwards, or somebody else still does after the whole timeout |
| UsbDriver.Shared.DrainTokens | ports/ameba-rtos-m/src/machine_usbserial.c:71-72 | the drain loop terminates with an empty semaphore, completions arriving meanwhile included |
| UsbDriver.Shared.CallTransmit | ports/ameba-rtos-m/src/machine_usbserial.c:74-81 | the endpoint accepts one transfer at a time; a new one is stale exactly when an older was in flight |
| UsbDriver.Shared.TakeToken | ports/ameba-rtos-m/src/machine_usbserial.c:79-87 | a blocking take returns with a token or after its whole timeout, and leaves the semaphore empty; for a transfer without a stale token it succeeds if and only if that transfer has completed |
| UsbDriver.Shared.Negotiate | ports/ameba-rtos-m/src/machine_usbserial.c:74-88 | between drain and release: the transfer is accepted exactly if the endpoint takes it at the first call or at the retry (with nothing in flight), and unless stale the result is true if and only if it has completed |
| UsbDriver.Shared.TransmitBlocking | ports/ameba-rtos-m/src/machine_usbserial.c:63-92 | the whole call on the shared state: true if and only if the caller's own transfer was accepted and has completed, unless a stale token was about; false without a transfer only if the endpoint refused twice or the mutex timed out |
| RtcAlarm.StepConsistent | ports/ameba-rtos-m/src/machine_rtc.c:149-237 | every call, fire, pump and reset keeps target, repeat flag, interval, hardware and queued node consistent |
| RtcAlarm.AlwaysConsistent | ports/ameba-rtos-m/src/machine_rtc.c:326-354 | in every run a live repeating alarm with no re-arm queued is armed at exactly its target, which is the first one plus fires times whole seconds |
| RtcAlarm.CancelledStaysDisarmed | ports/ameba-rtos-m/src/machine_rtc.c:227-237 | after a cancel or a soft reset nothing is left of the alarm and the hardware stays disarmed until a new alarm(), whatever was queued; after a reset no node is queued either |
| RtcAlarm.OneShotFiresOnce | ports/ameba-rtos-m/src/machine_rtc.c:342-354 | a one-shot alarm fires at most once, even with an old re-arm node still queued |
| RtcAlarm.OneShotArmedUntilFired | ports/ameba-rtos-m/src/machine_rtc.c:180-215 | a one-shot alarm is armed for the time asked for, whole seconds cut towards zero, until it fires, even if an old re-arm node runs meanwhile; then nothing is left of it |
| RtcAlarm.NothingLeftWithoutAlarm | ports/ameba-rtos-m/src/machine_rtc.c:61-67 | with nothing armed and no re-arm queued alarm_left() is 0 |
| RtcAlarm.RepeatsForever | ports/ameba-rtos-m/src/machine_rtc.c:339-351 | after k uninterrupted fires and pumps a repeating alarm is armed for its k-th later target, each at least a second on |
| RtcAlarm.AdvancesIffOneSecond | ports/ameba-rtos-m/src/machine_rtc.c:180-194 | the 1000 ms guard is exact: shorter intervals, and only those, would not move the target |
| RtcAlarm.MsLeftExactIff | ports/ameba-rtos-m/src/machine_rtc.c:61-67 | alarm_left() is exact if and only if the target is at most 4294967 seconds ahead |
| RtcDriver.RtcObject.Alarm | ports/ameba-rtos-m/src/machine_rtc.c:159-215 | both error returns leave the alarm alone; otherwise the hardware is armed for the date given, or for the offset's whole seconds from now, and the state is the model's |
| RtcDriver.RtcObject.AlarmCancel | ports/ameba-rtos-m/src/machine_rtc.c:227-237 | a wrong id changes nothing; otherwise cancel on the object's fields, with the stays-disarmed guarantee for every later run |
| RtcDriver.RtcObject.AlarmLeft | ports/ameba-rtos-m/src/machine_rtc.c:218-224 | ValueError for a wrong id, 0 without an alarm, and the exact time left up to 4294967 seconds |
| RtcDriver.RtcObject.IrqHandler | ports/ameba-rtos-m/src/machine_rtc.c:339-354 | the handler advances the target and queues the node, or clears the target |
| RtcDriver.RtcObject.VendorIsr | ports/ameba-rtos-m/src/machine_rtc.c:298-308 | handler plus the vendor's disarm are one fire of the model |
| RtcDriver.RtcObject.RearmScheduled | ports/ameba-rtos-m/src/machine_rtc.c:326-337 | the deferred node re-arms only a still repeating alarm and leaves an armed one-shot armed |
| RtcDriver.RtcObject.DeinitAll | ports/ameba-rtos-m/src/machine_rtc.c:390-397 | a soft reset disarms and forgets alarm and node, and nothing is armed again in any later run without alarm() |
| I2cTarget.RequestReadSound | ports/ameba-rtos-m/src/machine_i2c_target.c:148-156 | the read branches keep the trace well formed: a match only if the session was not reading |
| I2cTarget.RequestWriteSound | ports/ameba-rtos-m/src/machine_i2c_target.c:206-243 | the RX_FULL branch keeps the trace well formed and the interrupt masked until a read |
| I2cTarget.SeeStopSound | ports/ameba-rtos-m/src/machine_i2c_target.c:170-203 | the STOP branch finalises, or leaves the STOP pending while bytes wait |
| I2cTarget.LateStopSound | ports/ameba-rtos-m/src/machine_i2c_target.c:260-265 | the late finalisation settles a pending STOP once |
| I2cTarget.HandleSound | ports/ameba-rtos-m/src/machine_i2c_target.c:113-268 | one handler call on any coalesced word keeps every guarantee of the protocol layer |
| I2cTarget.SessionSurvivesIff | ports/ameba-rtos-m/src/machine_i2c_target.c:245-265 | exact condition over arbitrary words: the session left by the word's requests and STOP is still open on return if and only if no STOP waits or the FIFO is not empty |
| I2cTarget.HandleTidyIff | ports/ameba-rtos-m/src/machine_i2c_target.c:113-268 | a word's late finalisation closes a write session if and only if the word does not stray, by a test on its bits and the FIFO |
| I2cTarget.HooksFollowProtocol | ports/ameba-rtos-m/src/machine_i2c_target.c:113-268 | in every run each request lies in a session of its direction, with one match per change; STOPs are finalised, pending or merged; RX_FULL entries never exceed FIFO reads by more than one; late finalisations all close writes if and only if no word strays |
| I2cTarget.RequestsInSession | ports/ameba-rtos-m/src/machine_i2c_target.c:148-256 | what well-formedness says about a single request at any position of the trace |
| I2cTarget.HandleReports | ports/ameba-rtos-m/src/machine_i2c_target.c:148-256 | one word makes exactly one read request for each of RX_DONE and RD_REQ and one write request for RX_FULL, and leaves no match unanswered |
| I2cTarget.EveryBitReported | ports/ameba-rtos-m/src/machine_i2c_target.c:148-256 | in every run each bit is one request; each address match is followed at once by a request of its direction, except a probe's, which is made while no session is open and finalised at once |
| I2cTarget.StopEndsSession | ports/ameba-rtos-m/src/machine_i2c_target.c:170-203 | the STOP of an open session with an empty FIFO adds exactly one finalisation, whatever the address comparator says |
| I2cTarget.OneByteRead | ports/ameba-rtos-m/src/machine_i2c_target.c:126-156 | RX_DONE together with STOP_DET, whatever the comparator says: a one-byte read is one session with two requests and one end |
| I2cTarget.ProbeReportedIffMatched | ports/ameba-rtos-m/src/machine_i2c_target.c:175-201 | an address-only probe is reported if and only if the comparator matched |
| I2cTarget.StopBeforeNextRead | ports/ameba-rtos-m/src/machine_i2c_target.c:158-167 | a STOP and the next request in one word end the old session before the new one starts |
| I2cTarget.PendingStopClosesNextSession | ports/ameba-rtos-m/src/machine_i2c_target.c:258-265 | an instance of straying: when the FIFO is emptied outside the handler, the pending STOP closes the read that the next interrupt opens |
| I2cTarget.WriteTransaction | ports/ameba-rtos-m/src/machine_i2c_target.c:205-243 | a write of n bytes is one match, n requests and one finalisation |
| I2cDriver.TargetPort.FetchBytes | ports/ameba-rtos-m/src/machine_i2c_target.c:285-296 | the FIFO read returns the oldest bytes, as many as asked for or all there are, and unmasks RX_FULL |
| I2cDriver.TargetPort.ServeRead | ports/ameba-rtos-m/src/machine_i2c_target.c:148-156 | the RX_DONE and RD_REQ branches on the port's fields |
| I2cDriver.TargetPort.ServeStop | ports/ameba-rtos-m/src/machine_i2c_target.c:170-203 | the STOP_DET branch on the port's fields: the STOP is left pending, or finalised at once, with a write match before it exactly for an idle protocol layer and a matched address |
| I2cDriver.TargetPort.ServeRxFull | ports/ameba-rtos-m/src/machine_i2c_target.c:206-243 | the RX_FULL branch on the port's fields, hook reads included |
| I2cDriver.TargetPort.ServeLateStop | ports/ameba-rtos-m/src/machine_i2c_target.c:260-265 | the last lines of the handler on the port's fields |
| I2cDriver.TargetPort.IrqHandler | ports/ameba-rtos-m/src/machine_i2c_target.c:113-268 | the branches in the source's order are the model's handler, keep its invariant, and report each bit once |
| I2cDriver.TargetPort.ReadInto | ports/ameba-rtos-m/src/machine_i2c_target.c:285-296 | a read outside the handler returns a prefix of the FIFO and is the model's step |
| CanSlots.FirstEmpty | ports/ameba-rtos-m/src/machine_can.c:333-345 | the scan finds the lowest empty slot |
| CanSlots.OccupyAccounted | ports/ameba-rtos-m/src/machine_can.c:363-365 | an accepted message becomes outstanding in an empty slot and the counts still balance |
| CanSlots.CollectAccounted | ports/ameba-rtos-m/src/machine_can.c:155-161 | collecting a finished buffer frees its slot and counts its message as freed, once |
| CanSlots.CompleteAccounted | ports/ameba-rtos-m/src/machine_can.c:153-154 | a finishing buffer keeps its slot until it is collected |
| CanSlots.OccupyExclusive | ports/ameba-rtos-m/src/machine_can.c:333-345 | the id check keeps ordered messages of one id from being outstanding together |
| CanSlots.CompleteInOrder | ports/ameba-rtos-m/src/machine_can.c:333-345 | whichever buffer finishes first, an ordered message finishes after all earlier ones with its id |
| CanSlots.CollectFromReliable | ports/ameba-rtos-m/src/machine_can.c:153-161 | the interrupt's loop keeps the whole invariant |
| CanSlots.CollectFromEmpties | ports/ameba-rtos-m/src/machine_can.c:153-161 | the loop leaves no finished buffer behind and touches no other |
| CanSlots.StepReliable | ports/ameba-rtos-m/src/machine_can.c:144-163 | every send, completion, interrupt, flags() call and subscription change keeps the invariant |
| CanSlots.AlwaysReliable | ports/ameba-rtos-m/src/machine_can.c:329-366 | in every reachable state slots mirror uncollected buffers, each accepted message is outstanding or freed exactly once, reports carry the right error bit, and same-id ordered messages finish in send order |
| CanSlots.RefusedIffOutstanding | ports/ameba-rtos-m/src/machine_can.c:333-345 | send() is refused if and only if all buffers are taken or, for an ordered message, one with its id is outstanding |
| CanSlots.FlagsReportsOne | ports/ameba-rtos-m/src/machine_can.c:428-443 | while subscribed each flags() call reports exactly one finished, never reported message, the one in the lowest slot, with its own error bit, as long as there is one |
| CanSlots.SendIsLogged | ports/ameba-rtos-m/src/machine_can.c:329-366 | an accepted send puts the message, with its ordering flag, into the lowest empty slot; a refused one changes nothing |
| CanSlots.MaskDecidesCollector | ports/ameba-rtos-m/src/machine_can.c:144-163 | in every run the trigger mask decides who frees slots: with IRQ_TX only flags(), reporting each message, without it only the interrupt handler; what is logged as finished is what the controller finished |
| CanSlots.FinishedAreReported | ports/ameba-rtos-m/src/machine_can.c:428-443 | while the user listens, a message leaves its slot if and only if a flags() call of the run has reported it with its own error bit |
| CanSlots.FullForEverIffStuck | ports/ameba-rtos-m/src/machine_can.c:144-163 | exact condition for a table that stays full until the trigger mask changes: all eight messages finished, nobody subscribed, no TX interrupt pending |
| CanDriver.CanPort.FindSlot | ports/ameba-rtos-m/src/machine_can.c:333-345 | the array scan returns the lowest empty slot, or -1 exactly when the message is refused |
| CanDriver.CanPort.Send | ports/ameba-rtos-m/src/machine_can.c:329-366 | the slot returned is the lowest empty one and now sends this message, recorded with its ordering flag; -1 exactly when refused, with nothing recorded |
| CanDriver.CanPort.ClearOne | ports/ameba-rtos-m/src/machine_can.c:155-161 | the loop body collects one buffer and moves to the next set bit |
| CanDriver.CanPort.TxIsr | ports/ameba-rtos-m/src/machine_can.c:144-163 | the flag is cleared; with IRQ_TX subscribed no slot is touched, else the bit loop terminates, is the model's collection, and leaves nothing finished |
| CanDriver.CanPort.IrqFlags | ports/ameba-rtos-m/src/machine_can.c:428-443 | flags() reports the lowest finished slot with its own error bit and frees it, or finds none |
| CanDriver.CanPort.UpdateCounters | ports/ameba-rtos-m/src/machine_can.c:537-543 | tx_pending is the number of accepted messages not yet freed |
| NorFlash.ProgramStoresIff | ports/ameba-rtos-m/src/ameba_flash.c:130-133 | programming stores its data if and only if every bit it sets is still set; over erased bytes always |
| NorFlash.EraseProgramIsOverwrite | ports/ameba-rtos-m/src/ameba_flash.c:122-133 | erase then program is a plain write that leaves every other byte alone |
| NorFlash.ReadBack | ports/ameba-rtos-m/src/ameba_flash.c:66-93 | what was written is read back, and reads elsewhere do not see it |
| NorFlash.DisjointWritesReadBack | ports/ameba-rtos-m/src/ameba_flash.c:106-107 | after an erase any number of disjoint offset writes read back exactly |
| NorFlash.RefinesByteArray | ports/ameba-rtos-m/src/ameba_flash.c:97-174 | block writes, erases and offset writes onto erased bytes act on the device as on a plain byte array |
| FlashDriver.AddressExact | ports/ameba-rtos-m/src/ameba_flash.c:112-130 | the 32-bit address of an accepted call is start plus offset, without wrap-around |
| FlashDriver.BlockAddress | ports/ameba-rtos-m/src/ameba_flash.c:124-127 | the 32-bit sector address of an accepted erase is exact and aligned |
| FlashDriver.FailedWriteLeaves | ports/ameba-rtos-m/src/ameba_flash.c:97-135 | a block write whose program call stops after k bytes leaves those written, the rest of its sectors erased, and everything else alone |
| FlashDriver.Flash.ReadBlocks | ports/ameba-rtos-m/src/ameba_flash.c:66-93 | succeeds exactly when offset and length lie in the region and the SDK's read does; returns exactly those bytes |
| FlashDriver.Flash.EraseBlocks | ports/ameba-rtos-m/src/ameba_flash.c:122-128 | the erase loop erases exactly the sectors of the write and nothing else |
| FlashDriver.Flash.WriteBlocks | ports/ameba-rtos-m/src/ameba_flash.c:97-135 | bad length, EIO, a failing SDK call and success: three arguments write, four only clear bits, and a refused call touches nothing |
| FlashDriver.Flash.EraseBlock | ports/ameba-rtos-m/src/ameba_flash.c:162-174 | erases exactly one whole block of the region or fails without touching it |
| FlashDriver.Flash.BlockCount | ports/ameba-rtos-m/src/ameba_flash.c:155-157 | counts exactly the blocks that can be erased |
| ThreadList.ExitKept | ports/ameba-rtos-m/src/mpthreadport.c:129-136 | unlinking at a thread's exit keeps main entry last, handles distinct, and list equal to the live tasks that are not leaving |
| ThreadList.StepKept | ports/ameba-rtos-m/src/mpthreadport.c:63-191 | every operation keeps the list's invariant |
| ThreadList.ListsLiveTasks | ports/ameba-rtos-m/src/mpthreadport.c:63-226 | after any run the list holds, each once and the main one last, exactly the live tasks that are not between unlinking and deleting themselves |
| ThreadList.DeinitKept | ports/ameba-rtos-m/src/mpthreadport.c:213-226 | a deinit deletes every other listed task; a task that has unlinked but not yet deleted itself outlives it |
| ThreadList.UnlinkIsOthers | ports/ameba-rtos-m/src/mpthreadport.c:130-135 | exit removes exactly the calling thread and keeps the order of the rest |
| ThreadList.RootsComplete | ports/ameba-rtos-m/src/mpthreadport.c:76-90 | a collection scans every node and argument and exactly the stacks of running threads other than the current one |
| ThreadList.MainIsScanned | ports/ameba-rtos-m/src/mpthreadport.c:63-74 | from mp_thread_init on, a collection by any other task scans the main task's stack |
| ThreadList.CreateAdds | ports/ameba-rtos-m/src/mpthreadport.c:165-171 | a new thread comes first in the list with its own argument and stack, not yet running, and its argument is a root from then on |
| ThreadList.StartScans | ports/ameba-rtos-m/src/mpthreadport.c:110-119 | mp_thread_start marks the calling thread alone as running, and its stack is a root of any other task's collection |
| ThreadList.FinishUnscans | ports/ameba-rtos-m/src/mpthreadport.c:182-191 | mp_thread_finish marks the calling thread alone, and its stack is a root from then on only if a running thread shares it |
| ThreadList.RunningStaysScanned | ports/ameba-rtos-m/src/mpthreadport.c:76-90 | in every run a thread that has started and neither finished nor exited keeps its entry, and its stack is a root of every collection by another task |
| ThreadList.ExitIsOthers | ports/ameba-rtos-m/src/mpthreadport.c:129-136 | the exit of a live thread leaves exactly the others, in order |
| ThreadDriver.Threads.constructor | ports/ameba-rtos-m/src/mpthreadport.c:63-74 | mp_thread_init builds the one-node list of the running main task |
| ThreadDriver.Threads.Create | ports/ameba-rtos-m/src/mpthreadport.c:141-176 | stack size defaults and minimum; a created thread is pushed in front with its argument, stack and state, its argument is a root, and a failed one changes nothing |
| ThreadDriver.Threads.FindNode | ports/ameba-rtos-m/src/mpthreadport.c:112-117 | the search loop finds the node of the calling thread or none |
| ThreadDriver.Threads.SetRunState | ports/ameba-rtos-m/src/mpthreadport.c:110-119 | the calling thread's node gets exactly the state asked for, every other node keeps its own, and the list is the model's |
| ThreadDriver.Threads.Bypass | ports/ameba-rtos-m/src/mpthreadport.c:129-136 | writing through the pointer to the link bypasses exactly one node, the head included |
| ThreadDriver.Threads.Exit | ports/ameba-rtos-m/src/mpthreadport.c:123-139 | the splice in place is the model's removal, and no node's data changes |
| ThreadDriver.Threads.Vanish | ports/ameba-rtos-m/src/mpthreadport.c:137-138 | the final vTaskDelete ends the unlinked task and leaves the list alone |
| ThreadDriver.Threads.GcOthers | ports/ameba-rtos-m/src/mpthreadport.c:76-90 | the loop over the links scans exactly the model's roots, in list order |
| ThreadDriver.Threads.DeleteOthers | ports/ameba-rtos-m/src/mpthreadport.c:218-224 | every task but the main one is deleted, in list order |
| ThreadDriver.Threads.Deinit | ports/ameba-rtos-m/src/mpthreadport.c:213-226 | the source's two assertions hold, and only the main entry is left |
| Pwm.SettingFits | ports/ameba-rtos-m/src/machine_pwm.c:216-240 | for every frequency the prescaler fits eight bits, the period never needs more than 0x10000 ticks, and a smaller prescaler would leave no room to spare |
| Pwm.PeriodPositiveIff | ports/ameba-rtos-m/src/machine_pwm.c:211-216 | the period is positive if and only if the frequency is at most 1 MHz, which freq() does not check |
| Pwm.ClampedIff | ports/ameba-rtos-m/src/machine_pwm.c:232-240 | exactly 1 Hz and 2 Hz are replaced by the slowest rate the timer can make |
| Pwm.WriteBackChangesNothing | ports/ameba-rtos-m/src/machine_pwm.c:204-240 | round trip: setting the frequency that was read back changes neither period nor prescaler |
| Pwm.WirePeriodTrueIffLockStep | ports/ameba-rtos-m/src/machine_pwm.c:22-27 | the period on the wire is the one asked for if and only if the SDK's prescaler is the hardware's |
| Pwm.SdkAloneGoesStale | ports/ameba-rtos-m/src/machine_pwm.c:221-225 | left to the SDK, one long period makes every later short one wrong on the wire |
| Pwm.WrittenTimed | ports/ameba-rtos-m/src/machine_pwm.c:277-286 | re-applying a duty under a new period keeps the pulse within it and reads back the same duty, unless the period is zero |
| Pwm.SetFreqIs | ports/ameba-rtos-m/src/machine_pwm.c:226-231 | freq() runs the SDK's period function, whose overflow branch is never taken: the whole new state in one piece |
| Pwm.FreqKeepsDuties | ports/ameba-rtos-m/src/machine_pwm.c:211-289 | after freq(), at any frequency, every active channel has the new period on its pin, up to 1 MHz with its old duty; inactive ones are untouched |
| Pwm.DutyKeptIff | ports/ameba-rtos-m/src/machine_pwm.c:211-289 | exact condition: an active channel's duty survives freq() if and only if the frequency is at most 1 MHz or the duty was lost before |
| Pwm.LostDutyStaysLost | ports/ameba-rtos-m/src/machine_pwm.c:264-289 | a duty lost to a zero period is not brought back by any later freq() |
| Pwm.RefusedIff | ports/ameba-rtos-m/src/machine_pwm.c:130-144 | construction fails exactly for pins below PA_6 and when all channels drive other pins |
| Pwm.SecondMakeReuses | ports/ameba-rtos-m/src/machine_pwm.c:135-138 | a second PWM on a driven pin takes the same channel and changes nothing by itself |
| Pwm.PulseUsIsCut | ports/ameba-rtos-m/src/machine_pwm.c:315-325 | duty_ns() cuts at the period for every 32-bit argument |
| Pwm.DutyU16Is | ports/ameba-rtos-m/src/machine_pwm.c:295-306 | duty_u16(d) sets this channel's duty to d / 65535, d cut to 0..65535, and no other; duty_u16() reports the cut value; only a channel with a zero period takes no duty |
| Pwm.ArgumentsApplied | ports/ameba-rtos-m/src/machine_pwm.c:106-113 | keyword arguments take effect as frequency, then duty, duty_u16 before duty_ns; other channels see the frequency alone |
| Pwm.DutyOutlivesFreqs | ports/ameba-rtos-m/src/machine_pwm.c:257-289 | over any number of frequency changes up to 1 MHz, on whichever channels, every channel's duty stays what it was |
| Pwm.DeinitFreesPin | ports/ameba-rtos-m/src/machine_pwm.c:193-199 | deinit() switches off that channel alone and frees its pin, for which there is a channel again |
| Pwm.ResetFreesAll | ports/ameba-rtos-m/src/machine_pwm.c:330-339 | a soft reset switches off every channel, so that any pin from PA_6 on is accepted |
| Pwm.InitHelperSafe | ports/ameba-rtos-m/src/machine_pwm.c:106-113 | keyword arguments, any frequency included, keep the invariant, and a frequency among them makes all channels agree |
| Pwm.StepSafe | ports/ameba-rtos-m/src/machine_pwm.c:119-334 | every operation keeps the invariant, and the channels' agreement unless a new channel gets no frequency |
| Pwm.AlwaysSafe | ports/ameba-rtos-m/src/machine_pwm.c:119-334 | in every run, at any frequencies, the two prescalers agree and fit eight bits, the SDK's overflow branch was never taken, active pins are distinct and valid, pulses within periods |
| Pwm.UntimedMakeAgreesIff | ports/ameba-rtos-m/src/machine_pwm.c:162-179 | exact condition for a new channel without a frequency: all channels agree afterwards if and only if its starting period is everybody's and shows on timer and pins |
| Pwm.StepAgreesIff | ports/ameba-rtos-m/src/machine_pwm.c:119-334 | from agreement, an event ends it if and only if it takes a new channel whose start does not fit in |
| Pwm.ChannelsAgreeAfterFreq | ports/ameba-rtos-m/src/machine_pwm.c:257-289 | from any reachable state one freq() makes all active channels agree, and they agree at every later moment if and only if no event spoils it |
| Pwm.FindByPin | ports/ameba-rtos-m/src/machine_pwm.c:66-73 | the first active channel on the pin, or none |
| Pwm.FirstFree | ports/ameba-rtos-m/src/machine_pwm.c:54-61 | the lowest inactive channel, or none |
| PwmDriver.Timer8.AllocChannel | ports/ameba-rtos-m/src/machine_pwm.c:54-61 | the scan finds the lowest inactive channel or none |
| PwmDriver.Timer8.FindPin | ports/ameba-rtos-m/src/machine_pwm.c:66-73 | the scan finds the active channel on the pin or none |
| PwmDriver.Timer8.SaveDuties | ports/ameba-rtos-m/src/machine_pwm.c:264-271 | the first loop saves the duty of every other active channel |
| PwmDriver.Timer8.RestoreDuties | ports/ameba-rtos-m/src/machine_pwm.c:277-289 | the second loop leaves the table exactly as the specification of freq() says |
| PwmDriver.Timer8.FreqSet | ports/ameba-rtos-m/src/machine_pwm.c:211-290 | ValueError without a change for a frequency that is not positive; else, at any frequency, the whole new state, invariant kept |
| PwmDriver.Timer8.DutySetU16 | ports/ameba-rtos-m/src/machine_pwm.c:299-306 | on the channel table the duty becomes the clamped value over 65535 for a positive period, and no other channel changes |
| PwmDriver.Timer8.DutyGetU16 | ports/ameba-rtos-m/src/machine_pwm.c:295-297 | reports the model's duty, which after a set is the value set, cut to 0..65535 |
| PwmDriver.Timer8.DutySetNs | ports/ameba-rtos-m/src/machine_pwm.c:315-325 | the pulse is the whole microseconds asked for, cut at the period |
| PwmDriver.Timer8.InitArgs | ports/ameba-rtos-m/src/machine_pwm.c:92-114 | the keyword arguments in the source's order of precedence, each with the effect asked for |
| PwmDriver.Timer8.MakeNew | ports/ameba-rtos-m/src/machine_pwm.c:119-188 | both errors leave everything alone; otherwise the pin has an active channel with the arguments applied and the state is the model's |
| PwmDriver.Timer8.Deinit | ports/ameba-rtos-m/src/machine_pwm.c:193-199 | switches off one channel, if it is on, and leaves all others as they are |
| PwmDriver.Timer8.DeinitAll | ports/ameba-rtos-m/src/machine_pwm.c:330-339 | switches off every channel and nothing else |
| WallClock.NowAdvances | ports/ameba-rtos-m/src/mphalport.c:173-179 | one access adds the true time since the last base modulo 2^32, across counter wraps |
| WallClock.StepAccounted | ports/ameba-rtos-m/src/mphalport.c:173-194 | every read and set keeps the exact account of the clock's value |
| WallClock.AlwaysAccounted | ports/ameba-rtos-m/src/mphalport.c:164-179 | over any run the clock is behind true time by exactly the gaps inside the accesses plus 2^32 ms per whole counter period between them |
| WallClock.NeverAhead | ports/ameba-rtos-m/src/mphalport.c:173-179 | no read is ever ahead of the time that truly passed since the set |
| WallClock.ReadsAreMonotone | ports/ameba-rtos-m/src/mphalport.c:173-179 | between two sets no read reports less than an earlier one |
| WallClock.BehindByGapsIffPrompt | ports/ameba-rtos-m/src/mphalport.c:164-169 | exact condition: only the gaps are lost if and only if each access comes within a counter period of the one before |
| WallClock.PollingLosesTime | ports/ameba-rtos-m/src/mphalport.c:173-178 | n reads that straddle a tick between their two counter reads each leave the clock n ms behind |
| WallClock.SplitLosesNothing | ports/ameba-rtos-m/src/mphalport.c:181-191 | seconds and microseconds of gettimeofday() given back to settimeofday() yield the same count |
| WallClock.SetThenGet | ports/ameba-rtos-m/src/mphalport.c:181-194 | a value set and read at one tick comes back cut to whole milliseconds |
| WallClockDriver.Clocks.NowMs | ports/ameba-rtos-m/src/mphalport.c:173-179 | on the two statics: not before the last access, not ahead of true time |
| WallClockDriver.Clocks.GetTimeOfDay | ports/ameba-rtos-m/src/mphalport.c:181-187 | the two fields together are exactly the count |
| WallClockDriver.Clocks.SetTimeOfDay | ports/ameba-rtos-m/src/mphalport.c:189-194 | a set is the model's step |
| Bitstream.WordIsThreeBytes | ports/ameba-rtos-m/src/machine_bitstream.c:147-151 | the 24 bits of a packed word are those of its three bytes, most significant first |
| Bitstream.PackingKeepsBits | ports/ameba-rtos-m/src/machine_bitstream.c:137-159 | for every buffer of whole triples the packed words expand to exactly the buffer's bits |
| Bitstream.ReceivedIsSent | ports/ameba-rtos-m/src/machine_bitstream.c:108-119 | round trip: a receiver that groups the bits by eight has the buffer back |
| Bitstream.ShiftsAreBits | ports/ameba-rtos-m/src/machine_bitstream.c:109-118 | eight rounds of testing the top bit and shifting yield the byte's bits, most significant first |
| Bitstream.ConvertedIsNearestIff | ports/ameba-rtos-m/src/machine_bitstream.c:62-74 | high and low times become the nearest ticks below if and only if both 32-bit products fit; the second word of each pair is the whole period |
| Bitstream.NearestIffProductFits | ports/ameba-rtos-m/src/machine_bitstream.c:63-65 | the conversion is right if and only if the 32-bit product fits |
| Bitstream.LedcIsNearest | ports/ameba-rtos-m/src/machine_bitstream.c:185-188 | the controller's 25 ns ticks are the nearest below the times asked for |
| Bitstream.StagingInside | ports/ameba-rtos-m/src/machine_bitstream.c:139-151 | wherever the block lies, the staging area is line-aligned and all its words are inside the block |
| BitstreamDriver.ConvertTiming | ports/ameba-rtos-m/src/machine_bitstream.c:63-74 | the four words are converted in place |
| BitstreamDriver.ClockOut | ports/ameba-rtos-m/src/machine_bitstream.c:109-118 | the inner loop emits the pulses of the byte's bits in order |
| BitstreamDriver.SoftwareFallback | ports/ameba-rtos-m/src/machine_bitstream.c:59-119 | the nested loops emit exactly the pulses of the buffer's bits |
| BitstreamDriver.LedcPack | ports/ameba-rtos-m/src/machine_bitstream.c:137-159 | the staging words hold the packed buffer, on a cache line and inside the allocated block; or there is none, by NULL or by an exception |
| BitstreamDriver.HighLow | ports/ameba-rtos-m/src/machine_bitstream.c:282-314 | which path is taken, exactly; both carry the buffer's bits in order, and the DMA channel is given back if and only if the allocator does not raise |

## Left out

- RtcAlarm.MsLeftExactIff: target and time are whole seconds of unbounded range; a 64-bit `time_t` overflow is not modelled.
- UartRx.ReceivedInOrder: a break that puts more than one byte into a batch is modelled as the code treats it, one discarded byte per interrupt.
- WallClock.AlwaysAccounted: two threads inside one access at the same time are not modelled; the 64-bit count is taken not to be exhausted.
- Pwm.FreqKeepsDuties: rounding of single-precision floats and of the compare register to whole ticks is not modelled.
- Pwm.DutyU16Is: in exact reals the value set is the value reported; single-precision rounding can report a neighbouring one.
- PwmDriver.Timer8.DutySetNs: `pwmout_pulsewidth_us` is taken to store the microseconds as the pulse; its own arithmetic on a zero period is not modelled.
- BitstreamDriver.LedcSend: stands for the DMA and the LED controller; the 100 ms completion timeout and register set-up are not modelled.
- FlashDriver.Flash.WriteBlocks: `flash_erase_sector` reports no result, so a failing erase is not modelled.
- OtaDriver.OtaSession.FinishSession: starting a second session is not modelled.
- UART: re-initialisation, deinit, `sendbreak()`, the flush deadline (its 32-bit product wraps for ordinary buffer sizes), pin checks and baud rate.
- I2S: the non-blocking copy helpers of the upstream framework, which is not part of this model, deinit, and the sample-format tables.
- OTA: allocation failures and the 10 s abort of the finaliser, which depend on RTOS deletion.
- USB: enumeration, receive path, deinit and the REPL mirror's chunking.
- RTC: calendar conversion and the alarm registers' missing year field.
- I2C target: `write_bytes`, TX abort, re-entry of the handler, and the upstream hooks' own bookkeeping, which is not part of this model.
- CAN: filters, receive path, bus state counters, and restart, which drops outstanding messages.
- Threads: the entry function kept in one global, mutex internals and thread-local state.
- PWM: the multi-timer SoC, which depends on per-timer SDK initialisation that is not part of this model.
- The upstream ring-buffer headers are not part of this model; the ring is the array with two indices and one spare slot that the port sets up.
- Sockets, Wi-Fi and Ethernet glue, SPI, I2C master, ADC, WDT, SD card, timers, pins, argument parsing, printing: thin layers over the SDK.
