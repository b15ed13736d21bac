# RTDM-native driver stack: a Dafny model

This project models the stateful core of the RTDM-native drivers and proves what they are for: the
counting semaphore of the driver API, the receive filters, receive buffers, bit timing and register
codecs of the CAN stack, its device table, and the two byte rings of the 16550A serial driver.
`dafny verify dfyconfig.toml` checks everything.

| file | part of the system |
|---|---|
| `Collections.dfy`, `Events.dfy` | shared definitions; how a wait for an event ends |
| `Semaphore.dfy`, `SemaphoreRuns.dfy` | the `count`/`sleepers` protocol as a step system over any number of threads |
| `Filters.dfy`, `FilterSpec.dfy` | filter matching; bind, setsockopt and close as operations on values, and all their histories |
| `FilterLists.dfy`, `FilterDriver.dfy` | the two linked lists in each device's receiver array, and the driver loops over all devices |
| `Ring.dfy`, `FrameBytes.dfy`, `RxRing.dfy` | the receive buffer: frames as bytes in a ring |
| `RecvPath.dfy` | interrupt, byte ring, receive semaphore and readers together |
| `DeliveryRuns.dfy` | reception lists and all sockets' rings together: histories of operations, frames and reads |
| `BitTime.dfy` | the bit-time search and the BTR registers |
| `Codecs.dfy` | SJA1000 and MSCAN transmit and receive registers, and the way from sender to reader |
| `UartTx.dfy`, `UartRx.dfy` | the 16550A rings, with interrupts at every unlocked point |
| `Registry.dfy` | device slots, names and reference counts |
| `BusErrors.dfy` | the throttle on bus-error frames |

How the code is read:

- Each atomic operation and each section under a lock is one step. `wake_up` makes some sleeping
  waiter runnable, whichever the queue order picks; signals, timeouts, spurious wake-ups and
  interrupts are nondeterministic choices or parameters, and so is how much of the caller's memory can
  be copied.
- Between two locked sections of the serial driver any number of interrupts happens, and so does it
  after every single byte of a user copy.
- A CAN ID word is a record of its three flag bits and its 29 low bits. `x & (size - 1)` on a ring is
  `Wrap`, which `WrapIsMod` shows to be the remainder.
- Arrays inside a device structure (receivers, registers) are sequence fields, because nothing else
  can point into them; the rings are arrays.

Places where the code does less than one might expect are kept as they are, each with its condition:

- a timestamped frame read without a control buffer shifts all later reads (`RxRing.AdvancedHolds` for
  one read and `RecvPath.CarefulIff` for a whole run, if and only if);
- a rate that the controller could meet is refused because every bit length is skipped
  (`BitTime.CalcBitTime`, `BitTime.WronglyRefusedIff`, if and only if; `BitTime.RefusedAt8MHz` is an
  instance). Apart from that, skipping lengths loses nothing (`BitTime.NothingLost`);
- a kernel-space serial write that wraps copies too much (`UartTx.KernelWrapSafeIff`, if and only if;
  `UartTx.CorruptBlock` is an instance);
- a wait for an event can fail although the event is pending (`Events.FailsWhilePendingIff`, if and only
  if; `Events.LateEvent` has instances);
- the bus-error counter is a `char` and wraps (`BusErrors.ThrottledIff`, if and only if);
- a device name is cut at 15 characters, so that a mask can run out of numbers while a slot is free
  (`Registry.FreshIff`, if and only if for masks that end in "%d"), and then the device is registered
  under the mask itself (`Registry.Table.Register`). With "rtcan%d", the mask of all drivers here, no
  table indexed by an `int` runs out (`Registry.DriverMaskFits`); longer masks can.

## Model

| member | source | states |
|---|---|---|
| `Semaphore.RtdmSem.constructor` | include/rtdm/rtdm_driver_native.h:577-584 | a fresh semaphore holds `val` permits and has no waiters |
| `Semaphore.RtdmSem.Decrement` | include/rtdm/rtdm_driver_native.h:595-611 | the decrement of both downs is the fast success or the start of a slow path |
| `Semaphore.RtdmSem.TestDestroy` | ksrc/skins/rtdm/native/drvlib.c:208-209 | the unlocked test ends the call on a destroyed semaphore and lets it enter otherwise |
| `Semaphore.RtdmSem.WakeUpLocked` | ksrc/skins/rtdm/native/drvlib.c:258 | some sleeper becomes runnable if there is one, and nothing else changes |
| `Semaphore.RtdmSem.TrySection` | ksrc/skins/rtdm/native/drvlib.c:280-295 | the locked section of a down that must not wait returns the decrement and the sleepers' share |
| `Semaphore.RtdmSem.Section` | ksrc/skins/rtdm/native/drvlib.c:217-262 | one locked pass of the slow-path loop of both downs returns -EIDRM if and only if the semaphore is destroyed, else -EINTR iff a signal is pending, else -ETIMEDOUT iff a bounded wait has expired, else success iff count + sleepers seen is positive, and sleeps otherwise; each is the step of that name |
| `Semaphore.RtdmSem.Increment` | include/rtdm/rtdm_driver_native.h:614-618 | the increment of up, and whether a wake-up is owed |
| `Semaphore.RtdmSem.WakeUp` | include/rtdm/rtdm_driver_native.h:614-618 | the wake-up of up |
| `Semaphore.RtdmSem.SetDestroy` | include/rtdm/rtdm_driver_native.h:586-590 | setting the destroy bit |
| `Semaphore.RtdmSem.WakeUpAll` | include/rtdm/rtdm_driver_native.h:586-590 | waking everybody after the destroy bit is set |
| `SemaphoreRuns.StepConserves` | ksrc/skins/rtdm/native/drvlib.c:217-295 | every step moves count + sleepers + decrements in flight by what a plain counter moves; failing exits move nothing |
| `SemaphoreRuns.StepKeepsInv` | ksrc/skins/rtdm/native/drvlib.c:217-295 | `sleepers` stays 0 or 1, permits never go negative, sleepers are not stranded with a non-negative count |
| `SemaphoreRuns.Conservation` | include/rtdm/rtdm_driver_native.h:577-618 | on every run before destroy, count + sleepers + in-flight decrements = initial + ups - successful downs, so downs never exceed permits |
| `SemaphoreRuns.NoLostWakeUp` | ksrc/skins/rtdm/native/drvlib.c:201-368 | on every run, if threads are queued, all asleep, and no up or down is in flight, every permit has been taken |
| `SemaphoreRuns.SectionWinsIff` | ksrc/skins/rtdm/native/drvlib.c:244-251 | an undisturbed waiter gets a permit if and only if more permits exist than other downs are in flight |
| `SemaphoreRuns.DestroyReleases` | ksrc/skins/rtdm/native/drvlib.c:228-231 | after destroy has finished nobody is or falls asleep in any later state, and no slow path enters, succeeds or times out |
| `SemaphoreRuns.LateCallsAreRefused` | ksrc/skins/rtdm/native/drvlib.c:208-209 | a slow-path call that starts on a destroyed semaphore returns -EIDRM as its next step |
| `Filters.MountedAccepts` | ksrc/drivers/can/rtcan_raw_filter.c:55-65 | a mounted filter accepts a non-error ID exactly when the documented, possibly inverted, rule on the user's filter does |
| `Filters.AndBits` | ksrc/drivers/can/rtcan_raw.c:68-74 | the test of a filter is bit for bit |
| `Filters.DefaultAccepts` | ksrc/drivers/can/rtcan_raw_filter.c:173-182 | the entry of a socket without user filters accepts every ID |
| `FilterSpec.ApplyConsistent` | ksrc/drivers/can/rtcan_raw.c:228-369 | open, bind, filter change and close keep the lists in agreement with the sockets, and an operation that fails changes nothing |
| `FilterSpec.HistoryConsistent` | ksrc/drivers/can/rtcan_raw_filter.c:124-253 | after every history each bound socket with filters owns exactly one contiguous segment, its own filters in user order, on each device in scope, and no other socket owns any |
| `FilterSpec.BindAllOrNothing` | ksrc/drivers/can/rtcan_raw_filter.c:68-121 | bind returns -ENOSPC if and only if on some device in the new scope the other sockets' entries leave too little room, and then nothing has changed |
| `FilterSpec.SetFilterAllOrNothing` | ksrc/drivers/can/rtcan_raw.c:320-369 | setsockopt returns -EINVAL if and only if the list is empty or too long, and -ENOSPC if and only if the socket is bound and on some device in scope the other sockets' entries leave too little room; then nothing has changed |
| `FilterSpec.HistoryGrants` | ksrc/drivers/can/rtcan_raw.c:228-369 | after every history each open socket has the filter list of its last setsockopt that succeeded, the accept-all default if there was none, and the scope of its last bind that succeeded |
| `FilterSpec.Delivery` | ksrc/drivers/can/rtcan_raw.c:131-161 | a frame is handed to a socket exactly once per user filter that accepts it, and only within the socket's scope |
| `FilterSpec.DeliveryAfterHistory` | ksrc/drivers/can/rtcan_raw.c:151-160 | after every history a socket gets a frame once for each accepting filter of its last successful setsockopt, if its last successful bind covers the device; so it is reached if and only if one matches or none was defined |
| `FilterLists.Device.constructor` | ksrc/drivers/can/rtcan_dev.c:186-191 | the initial free list runs through all receivers |
| `FilterLists.SpliceIn` | ksrc/drivers/can/rtcan_raw_filter.c:184-189 | moving the first n free receivers to the front of the reception list leaves two ending lists with the right contents |
| `FilterLists.SpliceOut` | ksrc/drivers/can/rtcan_raw_filter.c:237-245 | moving a middle part of the reception list to the front of the free list does so too |
| `FilterLists.Device.Fill` | ksrc/drivers/can/rtcan_raw_filter.c:152-182 | the first free receivers get the socket and its mounted filters in order, all others are untouched |
| `FilterLists.Device.AddFilter` | ksrc/drivers/can/rtcan_raw_filter.c:148-193 | the socket's segment is put in front; lists stay acyclic, disjoint and complete, and the counter right |
| `FilterLists.Device.Locate` | ksrc/drivers/can/rtcan_raw_filter.c:224-235 | the search finds the first and last entry of the socket's segment and its predecessor |
| `FilterLists.Device.RemoveFilter` | ksrc/drivers/can/rtcan_raw_filter.c:219-252 | exactly the socket's segment leaves the reception list; lists and counter stay right |
| `FilterLists.Device.Receive` | ksrc/drivers/can/rtcan_raw.c:151-160 | walking the linked list delivers to the accepting entries in list order; the match count of exactly those entries goes up by one, and nothing else changes |
| `FilterDriver.RoomFreed` | ksrc/drivers/can/rtcan_raw_filter.c:85-118 | removing a socket frees `flistlen` entries on each device it occupies and none elsewhere |
| `FilterDriver.Can.CheckSpace` | ksrc/drivers/can/rtcan_raw_filter.c:82-120 | the check passes if and only if every device in the new scope has room once the old binding is gone, for every combination of old and new scope |
| `FilterDriver.Can.CheckFilter` | ksrc/drivers/can/rtcan_raw_filter.c:68-121 | the same with the cases of no filter and no list |
| `FilterDriver.Can.RemoveFilter` | ksrc/drivers/can/rtcan_raw_filter.c:199-253 | the socket's entries leave every device |
| `FilterDriver.Can.AddFilter` | ksrc/drivers/can/rtcan_raw_filter.c:124-196 | the filters become the first segment of every device in scope, and the returned length is right |
| `FilterDriver.Can.Bind` | ksrc/drivers/can/rtcan_raw.c:262-301 | bind refines its operation on values, error codes included |
| `FilterDriver.Can.SetFilter` | ksrc/drivers/can/rtcan_raw.c:320-369 | so does changing the filters |
| `FilterDriver.Can.CloseSocket` | ksrc/drivers/can/rtcan_raw.c:228-253 | so does closing |
| `FilterDriver.Can.OpenSocket` | ksrc/drivers/can/rtcan_socket.c:37-60 | so does opening |
| `FilterDriver.Can.Receive` | ksrc/drivers/can/rtcan_raw.c:131-161 | in every valid state each socket gets a frame as often as its filters accept it |
| `DeliveryRuns.RunRefines` | ksrc/drivers/can/rtcan_raw.c:77-161 | after every history of socket operations, timestamp switches, frames and reads, each socket's byte ring holds one copy per accepting filter that its user last set, in order, with a timestamp exactly if switched on, except for those that did not fit and those read, and counts what did not fit |
| `DeliveryRuns.QueueTraced` | ksrc/drivers/can/rtcan_raw.c:77-93 | every queued frame is one that was received, with the time of its arrival if and only if the socket's timestamps were on then |
| `DeliveryRuns.NewestFrame` | ksrc/drivers/can/rtcan_raw.c:86-120 | with room, the newest entry after a frame that a socket is due is that frame, with its time exactly if the socket has switched timestamps on |
| `DeliveryRuns.ReaderGetsOldest` | ksrc/drivers/can/rtcan_raw.c:596-648 | in every such history a reader gets the oldest frame queued, field by field as it was received, and with a control buffer its time exactly if timestamps were on when it arrived |
| `DeliveryRuns.OfferedKeeps` | ksrc/drivers/can/rtcan_raw.c:94-127 | of several copies for one socket as many are kept as fit, and the others are counted |
| `DeliveryRuns.HandedTo` | ksrc/drivers/can/rtcan_raw.c:151-160 | what a frame does to a socket's ring depends only on how many of its entries accept it, not on the order of the list |
| `DeliveryRuns.Dispatch` | ksrc/drivers/can/rtcan_raw.c:151-160 | the deliveries to the listeners, each into its own buffer in place, make up that step |
| `DeliveryRuns.Rcv` | ksrc/drivers/can/rtcan_raw.c:131-161 | rtcan_rcv on linked lists and buffers in place is the step of such a history |
| `Ring.WriteExtends` | ksrc/drivers/can/rtcan_raw.c:101-117 | a block copied behind the bytes in use, in two parts if need be, extends them |
| `Ring.PartsAreSlice` | ksrc/drivers/can/rtcan_raw.c:494-510 | a block read in two parts is the ring slice |
| `FrameBytes.IdRoundTrip` | ksrc/drivers/can/rtcan_socket.h:68-88 | the ID word survives the copy through memory in either byte order |
| `FrameBytes.IdLayout` | ksrc/drivers/can/rtcan_socket.h:68-88 | which byte of memory holds which bits of the ID word |
| `FrameBytes.DlcRoundTrip` | ksrc/drivers/can/rtcan_socket.h:46-51 | the DLC and the timestamp mark share a byte without loss |
| `RxRing.RxSocket.Deliver` | ksrc/drivers/can/rtcan_raw.c:77-128 | a frame is appended, or dropped if and only if used bytes + its size reach the buffer size; a drop changes only the drop counter |
| `RxRing.DeliveredHolds` | ksrc/drivers/can/rtcan_raw.c:90-117 | the same on the state of the ring as a value: after the two-part copy it holds the old frames and the new one |
| `RxRing.PeekedIsShown` | ksrc/drivers/can/rtcan_raw.c:599-633 | what the field-by-field reads make of the ring bytes is the oldest frame, across any wrap |
| `RxRing.AdvancedHolds` | ksrc/drivers/can/rtcan_raw.c:629-637 | after a read the ring holds the other frames if and only if the timestamp was asked for or absent |
| `RxRing.RxSocket.Parse` | ksrc/drivers/can/rtcan_raw.c:599-633 | the fields read across any wrap are those of the oldest frame |
| `RxRing.RxSocket.Receive` | ksrc/drivers/can/rtcan_raw.c:596-648 | recvmsg returns the oldest frame with ID, interface, DLC, payload and timestamp; peeking changes nothing; otherwise the rest of the buffer stays readable if and only if the timestamp, if any, was asked for |
| `RxRing.Aligned` | ksrc/drivers/can/rtcan_raw.c:629-633 | the bytes left behind are those of the other frames if and only if the timestamp was read or absent |
| `RxRing.StreamUnique` | ksrc/drivers/can/rtcan_socket.h:59-88 | buffered bytes can be read back as frames in one way only |
| `RecvPath.RunAgrees` | ksrc/drivers/can/rtcan_raw.c:574-648 | on every run frames accepted minus frames read = free permits + readers holding one + a delivery not yet announced |
| `RecvPath.PermitMeansFrame` | ksrc/drivers/can/rtcan_raw.c:594-648 | a reader that got a permit, peeking or not, never parses an empty buffer |
| `RecvPath.RunTracks` | ksrc/drivers/can/rtcan_raw.c:77-128 | on every run the bytes of the ring are exactly those of the frames accepted and not yet read |
| `RecvPath.CarefulIff` | ksrc/drivers/can/rtcan_raw.c:629-637 | a run keeps that in all its states if and only if no reader leaves a timestamp unread |
| `RecvPath.InOrder` | ksrc/drivers/can/rtcan_raw.c:596-648 | for any number of readers and across any wrap, the message parsed from the ring after k reads is the frame accepted as number k, with ID, interface, DLC, payload and timestamp |
| `RecvPath.DroppedIff` | ksrc/drivers/can/rtcan_raw.c:90-99 | on every run a frame is dropped if and only if its size and that of the frames not yet read reach the buffer size, and a drop changes only the counter |
| `BitTime.Neighbours` | ksrc/drivers/can/rtcan_raw_dev.c:60-66 | for each bit length the rounded-down or the rounded-up prescaler is at least as good as any other |
| `BitTime.Search` | ksrc/drivers/can/rtcan_raw_dev.c:60-78 | the loop finds a best pair among all prescalers 1..64 and bit lengths 3..25 with clock/(n*rate) <= 64, the longest if several are equally good |
| `BitTime.CalcBitTime` | ksrc/drivers/can/rtcan_raw_dev.c:38-109 | success if and only if clock/(25*rate) <= 64 and some prescaler 1..64 and bit length 3..25 come within a tenth of the rate; then the best of all of them, the longest if several are equally good, split into segments in range at the intended sample point |
| `BitTime.CandidateIff` | ksrc/drivers/can/rtcan_raw_dev.c:60-66 | the search tries any pair at all if and only if clock/(25*rate) <= 64 |
| `BitTime.NothingLost` | ksrc/drivers/can/rtcan_raw_dev.c:60-78 | if it tries any, its choice is best among all prescalers 1..64 and all lengths 3..25, skipped ones included |
| `BitTime.SkippedLength` | ksrc/drivers/can/rtcan_raw_dev.c:64-66 | no pair of a skipped length is better than what the search finds |
| `BitTime.WronglyRefusedIff` | ksrc/drivers/can/rtcan_raw_dev.c:64-82 | when every length is skipped, a setting within a tenth of the rate exists if and only if clock/1600 is |
| `BitTime.RefusedAt8MHz` | ksrc/drivers/can/rtcan_raw_dev.c:64-66 | an 8 MHz clock could come within a tenth of 4900 baud, and every length is skipped |
| `BitTime.LosslessIff` | ksrc/drivers/can/sja1000/rtcan_sja1000.c:50-64 | the BTR registers hold a bit time without loss if and only if every field is in range |
| `BitTime.BtrLayout` | ksrc/drivers/can/sja1000/rtcan_sja1000.c:50-64 | the place of each field in the two registers |
| `BitTime.ChosenTimingArrives` | ksrc/drivers/can/rtcan_raw_dev.c:219-223 | the chosen timing reaches the controller unchanged and its recomputed rate is within a tenth of the request |
| `Codecs.Sja1000.StartXmit` | ksrc/drivers/can/sja1000/rtcan_sja1000.c:645-704 | the transmit registers hold the frame |
| `Codecs.SjaLayout` | ksrc/drivers/can/sja1000/rtcan_sja1000_regs.h:58-66 | the frame in the registers, by address and bit |
| `Codecs.Sja1000.ReadFrame` | ksrc/drivers/can/sja1000/rtcan_sja1000.c:87-153 | the received frame is what the registers hold, sized as its DLC says |
| `Codecs.SjaRoundTrip` | ksrc/drivers/can/sja1000/rtcan_sja1000.c:645-713 | an SJA1000 frame that passed the send checks is received with the same ID, flags, DLC and data |
| `Codecs.Mscan.StartXmit` | ksrc/drivers/can/mscan/rtcan_mscan.c:596-668 | the transmit buffer holds the frame |
| `Codecs.MscanLayout` | ksrc/drivers/can/mscan/rtcan_mscan.c:627-635 | the data bytes are in the registers 0, 1, 4, 5, 8, 9, 12, 13 |
| `Codecs.MscanIdLayout` | ksrc/drivers/can/mscan/rtcan_mscan.c:617-652 | the fields of the ID in the ID registers, with SRR, IDE and RTR bits |
| `Codecs.Mscan.ReadFrame` | ksrc/drivers/can/mscan/rtcan_mscan.c:104-153 | the received frame is what the buffer holds, sized as its DLC says |
| `Codecs.MscanRoundTrip` | ksrc/drivers/can/mscan/rtcan_mscan.c:596-668 | the same round trip for MSCAN |
| `Codecs.ThroughSja` | ksrc/drivers/can/sja1000/rtcan_sja1000.c:645-713 | a frame that passed the send checks, transmitted, received, put into the byte ring behind any frames and read out of it, shows the sender's ID and flags, DLC and the data bytes that count, none for RTR; it is lost if and only if the ring has no room |
| `Codecs.ThroughMscan` | ksrc/drivers/can/mscan/rtcan_mscan.c:596-668 | the same through MSCAN |
| `Codecs.BufferAndRead` | ksrc/drivers/can/rtcan_raw.c:77-128 | a frame delivered behind others is what the reader gets after them |
| `UartTx.TxPath.TxInterrupt` | ksrc/drivers/serial/16550A.c:198-215 | up to a FIFO's worth of pending bytes goes out in order |
| `UartTx.TxPath.Interrupt` | ksrc/drivers/serial/16550A.c:226-304 | the interrupt keeps the stream, sends what fits in the FIFO, and masks itself and signals the writer exactly when it is enabled with nothing left |
| `UartTx.TxPath.Copy` | ksrc/drivers/serial/16550A.c:993-999 | a user copy into the reserved cells, interrupted after every byte, fails exactly when the caller's memory is too short and never touches pending bytes |
| `UartTx.TxPath.Commit` | ksrc/drivers/serial/16550A.c:1006-1015 | committing appends exactly the block to the stream |
| `Events.Outcome` | ksrc/skins/rtdm/native/drvlib.c:147-193 | destruction is reported before the timeout and the timeout before a signal, each only if the last look found it; a wait that finds the event pending and nothing to report succeeds; a non-blocking one fails if and only if the event is neither pending nor destroyed |
| `Events.SucceedsIff` | ksrc/skins/rtdm/native/drvlib.c:117-193 | a blocking wait succeeds if and only if it finds the event before it sleeps and nothing that it reports there, or is woken with nothing to report |
| `Events.FailsWhilePendingIff` | ksrc/skins/rtdm/native/drvlib.c:117-193 | exactly when a wait fails although its last look finds the event pending |
| `Events.LateEvent` | ksrc/skins/rtdm/native/drvlib.c:131-182 | an event that comes during the sleep together with a signal, or with the end of the time, is not noticed |
| `UartTx.TxPath.Wait` | ksrc/skins/rtdm/native/drvlib.c:117-193 | the wait for the transmit event ends as its looks say, with interrupts between them; it keeps the stream, and finds the event exactly when it was there or the ring has run empty |
| `UartTx.TxPath.Write` | ksrc/drivers/serial/16550A.c:926-1043 | for any interleaving, bytes on the wire followed by pending ones are all committed blocks; the first n caller bytes are appended, at least what fits at once; it ends short only at a fault or, on a full ring, by a wait that failed; the result is n if positive, -EFAULT or -EBADF, or else the error of that wait |
| `UartTx.KernelWrapSafeIff` | ksrc/drivers/serial/16550A.c:970-1000 | a kernel-space write appends its block to the stream, whatever lies behind the caller's buffer, if and only if it does not wrap or the block is not longer than the head position |
| `UartTx.KernelPendingSafeIff` | ksrc/drivers/serial/16550A.c:993-1000 | a wrapped one spares the pending bytes if and only if none are pending or the same holds |
| `UartTx.CorruptBlock` | ksrc/drivers/serial/16550A.c:993-1000 | with nothing pending in a ring of two cells, a two-byte block at cell 1 goes out with a wrong first byte |
| `UartRx.RxPath.RxInterrupt` | ksrc/drivers/serial/16550A.c:146-195 | received characters are appended in order; exactly their line errors, and a soft overrun if they do not fit, are added to the status |
| `UartRx.RxPath.Interrupt` | ksrc/drivers/serial/16550A.c:266-273 | all characters and errors of the interrupt are taken in; a waiting reader is signalled at the first interrupt that completes its request or finds an error, and otherwise waits for the remainder |
| `UartRx.RxPath.Arrive` | ksrc/drivers/serial/16550A.c:266-273 | over any number of interrupts `in_nwait + in_npend` stays the request while the reader is not signalled, and it is signalled only when the request can be met or an error is pending |
| `UartRx.RxPath.Wait` | ksrc/skins/rtdm/native/drvlib.c:117-193 | however the wait ends, either `in_nwait + in_npend` is the request and no error is pending, or the request can be met or there is an error; the event stays pending exactly when the wait fails with it pending |
| `UartRx.RxPath.Sleep` | ksrc/drivers/serial/16550A.c:892-899 | the same from announcing the request to the reader's next step |
| `UartRx.RxPath.Copy` | ksrc/drivers/serial/16550A.c:864-871 | bytes copied without the lock are the oldest pending ones although interrupts append meanwhile; it fails exactly when the caller's memory is too short |
| `UartRx.RxPath.Release` | ksrc/drivers/serial/16550A.c:877-883 | the cells given back are those copied |
| `UartRx.RxPath.Turn` | ksrc/drivers/serial/16550A.c:817-899 | one turn reports errors first, takes pending bytes next, and waits or ends only when there are none |
| `UartRx.RxPath.ReadLoop` | ksrc/drivers/serial/16550A.c:817-912 | a read takes at each look all it still wants; it ends at the first look with errors, and short of its request only after a look that found nothing and, if it may wait, a failed wait and one more look |
| `UartRx.RxPath.Read` | ksrc/drivers/serial/16550A.c:777-923 | until the first soft overrun, bytes taken by readers followed by pending bytes are the bytes received; a read returns at least what was pending, unless it meets a fault or errors; a positive result is the number of bytes copied and taken, an error of a wait means none, -EPIPE or -EIO that errors were found, with or without a break |
| `BusErrors.Chip.EnableBusErr` | ksrc/drivers/can/sja1000/rtcan_sja1000.c:631-640 | enabling keeps the invariant that frames passed, plus one still owed, do not exceed the enables |
| `BusErrors.Chip.ErrorInterrupt` | ksrc/drivers/can/sja1000/rtcan_sja1000.c:295-311 | keeps that invariant: of the bus errors after an enable exactly the first is passed on, until there are so many that the counter wraps; other error interrupts always are |
| `BusErrors.Throttled` | ksrc/drivers/can/sja1000/rtcan_sja1000.c:296-311 | over any sequence of events whose bursts the counter can count, at most one bus-error frame is passed between two enables, and no more than enables in total |
| `BusErrors.ThrottledIff` | ksrc/drivers/can/sja1000/rtcan_sja1000.h:33 | the throttle holds over all sequences with bursts up to a limit if and only if the limit is at most 2 minus the smallest `char`: 130 for a signed one |
| `Registry.DecimalValue` | ksrc/drivers/can/rtcan_dev.c:144 | "%d" prints the number in decimal digits without leading zeros |
| `Registry.PrintInjective` | ksrc/drivers/can/rtcan_dev.c:143-144 | numbers whose names are not cut off at IFNAMSIZ give different names |
| `Registry.PrintInjectiveIff` | ksrc/drivers/can/rtcan_dev.c:143-144 | for masks that end in "%d", the names for all slots are different if and only if the longest fits |
| `Registry.FreshNumber` | ksrc/drivers/can/rtcan_dev.c:136-154 | while a slot is free and all names fit, some number gives a name nobody has, for any template |
| `Registry.FreshIff` | ksrc/drivers/can/rtcan_dev.c:136-154 | a mask that ends in "%d" gets a fresh name in every sound table with a free slot if and only if all its names fit |
| `Registry.DriverMaskFits` | ksrc/drivers/can/sja1000/rtcan_isa.c:36 | the drivers' mask always gets one, in a table of any size an `int` can index |
| `Registry.Table.AllocName` | ksrc/drivers/can/rtcan_dev.c:136-154 | the name comes from the first number that gives a free one, and is the mask itself if none does, which cannot happen while all names fit; reference counts are as before |
| `Registry.Table.Register` | ksrc/drivers/can/rtcan_dev.c:210-258 | the device gets the first free slot, index slot + 1 and a unique name; -ENOMEM if and only if the table is full; -EEXIST if and only if the name it would get is in use, which a template whose names fit never causes |
| `Registry.Table.GetByName` | ksrc/drivers/can/rtcan_dev.c:79-100 | a device is found if and only if the name is registered, and its reference is counted |
| `Registry.Table.GetByIndex` | ksrc/drivers/can/rtcan_dev.c:109-133 | a device is found if and only if one with this interface index is registered, and its reference is counted |
| `Registry.Table.Dereference` | ksrc/drivers/can/rtcan_dev.h:169-175 | dropping a reference keeps counts equal to outstanding references |
| `Registry.Table.TryUnregister` | ksrc/drivers/can/rtcan_dev.c:279-296 | a device leaves the table if and only if nobody refers to it |

## Left out

- Linux wait queues, spinlocks, timers and memory barriers below the steps described above; `count` is an unbounded integer.
- Re-initialising a semaphore that still has waiters, as stopping and starting a controller can do.
- The mutex service of the driver API, and event operations that the serial driver does not use.
- DeliveryRuns.RunRefines: readers come only for a buffered frame, which `RecvPath.PermitMeansFrame` shows of the semaphore, and ask for a timestamp that is there.
- Error frames and the `err_mask` branch of rtcan_rcv.
- TX loopback and the list of waiting senders: the push is not under the device lock.
- The race of setsockopt reading `ifindex` before it takes the list lock, devices that appear or go while sockets are bound, and the ownership of filter-list memory.
- The address-family and closing checks of bind, and setsockopt lengths that are not a multiple of the filter size.
- RxRing.RxSocket.Deliver: takes frames sized as the controllers size them; the virtual device and TX loopback do not cut DLC 9..15 to 8 data bytes.
- RecvPath.InOrder: covers the life of a socket up to its close, when the semaphore is destroyed, and readers that ask for the timestamp of a frame that has one; `RxRing.AdvancedHolds` says what happens otherwise.
- BitTime.CalcBitTime: requires a rate of at least 1 and no 32-bit overflow; rate 0 divides by zero in the code.
- Codecs.Sja1000.StartXmit: leaves out the command register that starts the transmission, and Codecs.Mscan.StartXmit the transmit flags and the busy check.
- UartTx.TxPath.Write: is for user-space callers, and follows a call for as many waits as its parameter describes; a writer that still waits then has no result. Purging and the event-mask effect on the interrupt enable bits are left out.
- UartRx.RxPath.Read: promises nothing about the data after a soft overrun, and follows a call for as many waits as its parameter describes. Timestamps, saved errors, `ioc_events` and status reads by other threads are left out.
- Registry.Table.Register: takes masks that fit in the name field with at most one "%d"; the state check of unregister and the repeated waiting are left out.
- Board probing, /proc output, PnP tables, controller mode changes and error-state tracking, example and testing programs.
