# A model of the soft-processor board support package and its neural network

The repository holds the board support package of a 32-bit Nios II system and a small neural-network
accelerator in SystemVerilog. This project models the parts of both that keep state, run
concurrently or do modular arithmetic, and proves what they promise:

- `Uart`, `UartRuns`, `UartMasks`, `UartReceive`, `UartQuiet`, `UartCalls`, `UartDriver`: the
  interrupt-driven UART driver. All but the last describe it as a machine of single foreground stores
  between which the service routine may run unless interrupts are off; `UartDriver` is the driver as
  an object that changes its rings and registers in place, under any schedule of interrupts, and
  refines that machine.
- `FdTable`, `FdCalls`, `Descriptors`: the file-descriptor pool with its exclusive locks, as a value
  with its calls and as an array changed in place.
- `AlarmTiming`, `Alarms`: the 32-bit arithmetic of one alarm against a tick count that never wraps,
  and the circular list of alarms on the heap with callbacks that remove and start alarms.
- `AlarmStops`, `AlarmLoop`: the loop of a tick when callbacks stop alarms of their choice, as a walk
  on values and over the heap.
- `Digits`, `Bits`, `LogFormat`, `LogPrintf`, `AltPrintf`, `LogMeaning`: numerals, bit masks, what
  format strings mean, the two printers, and what a caller may rely on letter by letter.
- `Layer`, `Manager`, `ManagerRuns`, `ManagerBus`, `Accelerator`: the multiply-accumulate chain of
  the accelerator, its bus manager, and the two wired together.
- `Irq`, `IrqRuns`, `IrqController`: interrupt masks, dispatch and nested handlers, over runs and in
  place.
- `TimeOfDay`, `Flush`, `Heap`, `Profile`: the calibrated clock, cache flushing, and the allocator
  with the profiler's records on top.
- `Common`, `Arithmetic`: 32-bit words and integers, optional values, products and quotients.

`dafny verify dfyconfig.toml` checks all of it.

## How the model stands to the code

- A C store by the foreground is one step. The service routine and critical sections run while
  interrupts are off, so an interrupt is one step and the inside of a critical section is not
  interrupted, but each of its stores is a step of its own in the UART model.
- Control, status and flag words are records or sets of their named bits. Masks of the interrupt
  controller are sets of bit numbers. Elsewhere `alt_u32` is a number below 2^32 and wrap-around is
  written out; signed 32-bit integers that can overflow are taken to wrap, which C leaves undefined.
- Blocking waits watch a finite schedule of interrupts; a call still waiting when it ends is left
  waiting and says so. The theorems about runs hold for schedules of any length.
- RXDATA is an input stream, TXDATA a log. Driver callbacks return an arbitrary number and do not
  touch the descriptor table.
- A rising edge of `reset` in the manager does what a clock edge with `reset` high does. Registers
  power up with any values. A packed vector is a number.
- In the nested-interrupt runs a bracket is opened or closed in one step: `alt_irq_interruptible` sets
  PIE with its last store and `alt_irq_non_interruptible` clears it with its first, so no interrupt
  can come between the others.

The model follows the code where its comments say otherwise or nothing:

- The scan in `alt_fd_lock` stops one short of `alt_max_fd`, so a lock can be granted while the
  descriptor with that number shares the device (`FdTable.LockGrantedIff`).
- An alarm started with the largest number of ticks goes off at the next tick unless the counter is
  about to wrap (`AlarmTiming.ExactIffStartable`).
- `read` raises RRDY at its end whether or not it has made room
  (`UartQuiet.ZeroLengthReadLosesBytes`, `UartQuiet.LateArrivalLosesBytes`), and the service routine
  tests the status word and not the mask (`UartQuiet.UnmaskedStatusLosesBytes`).
- A callback that stops the alarm whose address `alt_tick` has saved makes the loop endless
  (`AlarmStops.EndsIffSafe`, `AlarmLoop.Run`).
- Starting an alarm that is running is not an error, and closes the list on itself
  (`Alarms.Clock.Start`).
- A failed open clears a flag word that `fcntl` has set on a closed descriptor
  (`FdTable.FailedOpenRestoresIff`, `FdTable.FailedOpenLosesFlags`).
- The two's complement step of the accelerator keeps the sign bit of a negative zero and does not
  extend the sign (`Layer.RightIff`).
- A bus write to the address behind the sentinel of the inputs is taken and reaches the first output
  word (`ManagerBus.WaitTakesWrites`).
- A reset during the `wr` pulse of the manager clears the register file but leaves `wr` and `w_o`
  as they are until the first clock after it, so the pulse lasts as long as the reset and shows
  weights that are no longer written, unless they are all zero (`ManagerRuns.PulseShowsWritesIff`,
  `ManagerRuns.StalePulseIsReachable`).
- The set of the time of day multiplies in 32 bits, the get in 64, and the seconds are a 32-bit long
  (`TimeOfDay.ExactIff`).
- `sbrk` compares 32-bit sums, so with a limit of 2^31 or more a large request can be granted without
  room (`Heap.GrantedIff`), and nothing keeps a shrinking heap above its start
  (`Heap.Allocator.Sbrk`). The profiler does not test its result (`Heap.Allocator.Allocate`,
  `Profile.Graph.Record`).
- A field width of 2^31 or more wraps, and so does the number after the point, after which digits go
  to the width (`LogFormat.WidthIff`, `LogFormat.StrayDigitWidens`).

## Model

| member | source | states |
|---|---|---|
| UartRuns.TransmitRefinement | software/Soft_bsp/drivers/src/altera_avalon_uart_write.c:152-229 | Under every interleaving of single foreground stores with the service routine: bytes stored to TXDATA, then the ring, are exactly the bytes `write` has taken and published, in order; the occupancy is their number and below 64; a finished `write` that returned n took the first n bytes of its data, all of them if it may block |
| UartRuns.TxRingIsWindow | software/Soft_bsp/drivers/src/altera_avalon_uart_init.c:211-239 | In any state that keeps the transmit invariant the ring is the stretch of the accepted stream between the bytes sent and the bytes published |
| UartRuns.TxIrqKeepsFlow | software/Soft_bsp/drivers/src/altera_avalon_uart_init.c:206-283 | One transmit interrupt, with or without flow control, keeps ring slots and both indices in step with the accepted stream |
| UartRuns.StoreKeepsTx | software/Soft_bsp/drivers/src/altera_avalon_uart_write.c:201-206 | The store of a byte into the ring touches no slot that is still to be sent, and extends what the call has taken by exactly the next byte of its data |
| UartCalls.FullTestDecides | software/Soft_bsp/drivers/src/altera_avalon_uart_write.c:156-197 | The step of `write` at its full test: with fewer than 63 bytes waiting it goes on to the store; with 63 it gives up if it must not block and otherwise raises its interrupts and waits |
| UartCalls.ShortWriteFoundFull | software/Soft_bsp/drivers/src/altera_avalon_uart_write.c:156-170 | Under every interleaving a `write` that took fewer bytes than it was given must not block, and at some moment since its call, with just these bytes left, it found the ring holding 63 |
| UartCalls.WriteAloneTakes | software/Soft_bsp/drivers/src/altera_avalon_uart_write.c:152-229 | Without interrupts a `write` that returns took the smaller of what it was given and 63 less what was waiting, so one that may block returns only if all of it fits |
| UartRuns.NextKeepsTx | software/Soft_bsp/drivers/src/altera_avalon_uart_write.c:124-230 | Every step of every call and every interrupt keeps the transmit invariant |
| UartRuns.RunKeepsTx | software/Soft_bsp/drivers/src/altera_avalon_uart_write.c:124-230 | So does every run |
| UartRuns.NoTransmitStall | software/Soft_bsp/drivers/src/altera_avalon_uart_write.c:160-225 | In every reachable state in which an interrupt may be taken and no `write` is between its first store and its return, or one waits on a full ring: a non-empty ring has DCTS, and without flow control TRDY, set in the device register itself |
| UartRuns.RunKeepsMasks | software/Soft_bsp/drivers/src/altera_avalon_uart_write.c:173-225 | The device control register equals its shadow outside critical sections, over every run |
| UartRuns.TxIrqSendsOne | software/Soft_bsp/drivers/src/altera_avalon_uart_init.c:211-239 | Without flow control one transmit interrupt sends exactly the oldest byte of a non-empty ring, and nothing else does |
| UartRuns.CloseDrains | software/Soft_bsp/drivers/src/altera_avalon_uart_init.c:298-310 | A blocking `close` without flow control: the occupancy falls by one per transmit interrupt, it cannot return before the last byte is out, and it returns at its next test after exactly that many interrupts |
| UartCalls.CloseAnswers | software/Soft_bsp/drivers/src/altera_avalon_uart_init.c:298-310 | `close` returns at its first test unless it may block and the ring holds something; it says yes exactly on an empty ring |
| UartCalls.ClosedIsDrained | software/Soft_bsp/drivers/src/altera_avalon_uart_init.c:298-310 | Once `close` has said yes everything ever taken is on TXDATA, until the next call |
| UartMasks.TxServiceMasks | software/Soft_bsp/drivers/src/altera_avalon_uart_init.c:206-283 | After a transmit interrupt the device register is the shadow; TRDY and DCTS are both off if the ring is empty; otherwise DCTS is as it was, and TRDY is on if a byte was sent and goes off only if both reads of the status show CTS low |
| UartMasks.TxServiceSends | software/Soft_bsp/drivers/src/altera_avalon_uart_init.c:211-239 | A byte is sent exactly if the ring holds one and flow control does not forbid it, and it is the oldest |
| UartMasks.TxBitsByCause | software/Soft_bsp/drivers/src/altera_avalon_uart_init.c:276-282 | Over every run: RTS stays on; until the first `write` raises them DCTS is on and TRDY off; from a raise to the next transmit interrupt both are on; after one both are off whenever the ring is empty |
| UartMasks.IdleTransmitterIsQuiet | software/Soft_bsp/drivers/src/altera_avalon_uart_init.c:276-282 | Over every run, wherever an interrupt can be taken: on an empty ring the device register has DCTS on if and only if no transmit interrupt has come since initialisation or the last raise, and TRDY if and only if that was a raise by `write` |
| UartReceive.ReceiveProvenance | software/Soft_bsp/drivers/src/altera_avalon_uart_read.c:157-170 | In every run, even with overruns: each byte `read` returned was received, at its own stream position or a multiple of 64 later |
| UartReceive.QueueKeptIff | software/Soft_bsp/drivers/src/altera_avalon_uart_init.c:153-198 | One event keeps the receive ring an exact queue if and only if it is not a receive interrupt at occupancy 63 |
| UartReceive.ReceiveFifo | software/Soft_bsp/drivers/src/altera_avalon_uart_read.c:157-170 | In every run without such an interrupt the bytes returned are a prefix of those taken from RXDATA and the ring holds the rest |
| UartReceive.OverflowEmptiesQueue | software/Soft_bsp/drivers/src/altera_avalon_uart_init.c:178-197 | One receive interrupt at occupancy 63 makes the queue empty, whatever the mask says: 64 bytes are lost to the reader |
| UartReceive.OverflowAfterCopyIsHarmless | software/Soft_bsp/drivers/src/altera_avalon_uart_read.c:166-169 | The same interrupt between the copy out of a slot and the store to rx_start loses nothing |
| UartQuiet.QuietGivesFifo | software/Soft_bsp/drivers/src/altera_avalon_uart_read.c:157-237 | If every `read` asks for at least one byte and sees no receive interrupt after its last consume, and receive interrupts are delivered only while RRDY is in ctrl, then over the whole run, from boot and under every interleaving, the bytes returned are a prefix of those taken from RXDATA, the ring holds the rest, and RRDY is in ctrl exactly when the ring is not full, outside the stretch where a `read` has copied and not yet raised it |
| UartQuiet.QuietKeepsInv | software/Soft_bsp/drivers/src/altera_avalon_uart_read.c:157-237 | In such a run RRDY is raised only with room in the ring, at every one of its steps |
| UartQuiet.ZeroLengthReadLosesBytes | software/Soft_bsp/drivers/src/altera_avalon_uart_read.c:157-229 | Without the first condition: from boot, 63 bytes and a `read` of length 0, every byte delivered with RRDY in ctrl, and the next byte leaves an empty ring and 64 bytes unread |
| UartQuiet.LateArrivalLosesBytes | software/Soft_bsp/drivers/src/altera_avalon_uart_read.c:164-229 | Without the second: from boot, 62 bytes, a `read` of one, two bytes after its last consume, and the next byte after it returns empties the ring |
| UartQuiet.UnmaskedStatusLosesBytes | software/Soft_bsp/drivers/src/altera_avalon_uart_init.c:131-141 | Without the third: from boot, 63 bytes mask the ring, and a transmit interrupt whose status word shows another byte takes it and leaves an empty ring and 64 bytes unread |
| UartQuiet.FullIsReachable | software/Soft_bsp/drivers/src/altera_avalon_uart_init.c:186-197 | 63 arrivals from boot fill and mask the ring |
| UartReceive.UnmaskSafeIff | software/Soft_bsp/drivers/src/altera_avalon_uart_read.c:226-229 | After RRDY is raised the next permitted interrupt overruns the ring if and only if the ring was full at that moment |
| UartReceive.ZeroLengthReadUnmasksFullRing | software/Soft_bsp/drivers/src/altera_avalon_uart_read.c:157-229 | A `read` of length 0 at a full masked ring consumes nothing and still raises RRDY, so the next receive interrupt empties the queue |
| UartReceive.LeadGrowsOnlyByTaking | software/Soft_bsp/drivers/src/altera_avalon_uart_read.c:164-170 | Only an interrupt that takes a byte moves the received stream further ahead of the reader |
| UartCalls.ShortReadFoundEmpty | software/Soft_bsp/drivers/src/altera_avalon_uart_read.c:164-186 | Under every interleaving a `read` that returned fewer bytes than were asked for found the ring empty since its call, after just these; one that says it would block must not block, has returned none and found it empty once more |
| UartCalls.ReadAloneDelivers | software/Soft_bsp/drivers/src/altera_avalon_uart_read.c:157-237 | Without interrupts a `read` that returns delivered the smaller of what was asked for and what the ring held, and says that it would block if and only if the ring was empty and it must not |
| UartMasks.EmptyReadRaises | software/Soft_bsp/drivers/src/altera_avalon_uart_read.c:177-197 | A blocking `read` that finds the ring empty stores RRDY in the device before it waits, whatever interrupts come in between |
| UartDriver.Driver.constructor | software/Soft_bsp/drivers/src/altera_avalon_uart_init.c:65-98 | Initial control value and empty rings: the boot state of the step machine |
| UartDriver.Driver.RxIrq | software/Soft_bsp/drivers/src/altera_avalon_uart_init.c:152-198 | The receive half of the service routine in place equals its description |
| UartDriver.Driver.TxIrq | software/Soft_bsp/drivers/src/altera_avalon_uart_init.c:206-283 | The transmit half of the service routine in place equals its description, and leaves both transmit bits off in the device on an empty ring |
| UartDriver.Driver.Irq | software/Soft_bsp/drivers/src/altera_avalon_uart_init.c:107-144 | The service routine is one event of the step machine; it moves neither tx_end nor rx_start |
| UartDriver.Driver.EnableTx | software/Soft_bsp/drivers/src/altera_avalon_uart_write.c:221-225 | The critical section that raises TRDY and DCTS, store by store, refines the machine |
| UartDriver.Driver.WaitForSpace | software/Soft_bsp/drivers/src/altera_avalon_uart_write.c:175-197 | The blocking wait, with interrupts before its critical section and between the restore and the first test, ends only with a free slot |
| UartDriver.Driver.PutByte | software/Soft_bsp/drivers/src/altera_avalon_uart_write.c:203-206 | The two stores that add a byte, with interrupts between them |
| UartDriver.Driver.Write | software/Soft_bsp/drivers/src/altera_avalon_uart_write.c:124-230 | `write` in place, under any schedule of interrupts: it takes a prefix of its data, all of it if blocking, and less only after finding the ring full; without interrupts, as much as there is room for; TXDATA followed by the ring is all that was ever taken |
| UartDriver.Driver.TxHistory | software/Soft_bsp/drivers/src/altera_avalon_uart_write.c:152-229 | Between calls, TXDATA and the ring together hold all that `write` has taken |
| UartDriver.Driver.IdleIsQuiet | software/Soft_bsp/drivers/src/altera_avalon_uart_init.c:276-282 | Between calls an empty ring has its transmit interrupts on in the device only if none has been served since they were raised |
| UartDriver.Driver.CopyOne | software/Soft_bsp/drivers/src/altera_avalon_uart_read.c:166-169 | One byte copied out and its slot released, with interrupts between the stores |
| UartDriver.Driver.Drain | software/Soft_bsp/drivers/src/altera_avalon_uart_read.c:164-170 | The inner loop delivers the bytes it consumed, in order |
| UartDriver.Driver.Read | software/Soft_bsp/drivers/src/altera_avalon_uart_read.c:124-238 | `read` in place: what is in the destination is what it consumed; it returns less than asked for only after finding the ring empty, reports would-block only for an empty non-blocking call, and waits only at an empty ring with RRDY on in the device; in a run without overrun everything returned plus the ring is everything received |
| UartDriver.Driver.RxHistory | software/Soft_bsp/drivers/src/altera_avalon_uart_read.c:124-238 | After a quiet run, between calls, what `read` returned and the ring together are everything taken from RXDATA, and RRDY is enabled in the device exactly when the ring is not full |
| UartDriver.Driver.Close | software/Soft_bsp/drivers/src/altera_avalon_uart_init.c:298-310 | `close` in place: success exactly with an empty ring, and then everything taken is on TXDATA |
| Uart.RingIsSlice | software/Soft_bsp/drivers/inc/altera_avalon_uart.h:154-176 | A ring addressed modulo 64 is a slice of an unbounded stream |
| FdTable.UniqueHolder | software/Soft_bsp/HAL/src/alt_fd_lock.c:61-69 | Over every run of open, close, ioctl, fcntl and redirect from the boot table, two different descriptors of one device never both hold it, although the scan omits index alt_max_fd |
| FdTable.RunKeepsInv | software/Soft_bsp/HAL/src/alt_open.c:64-171 | Every run keeps: nothing open above the high-water mark except 0 to 2, only devices are locked, a device on 0 to 2 implies a mark of at least 3, and a holder is the lowest device descriptor of its device |
| FdTable.FdLockKeepsInv | software/Soft_bsp/HAL/src/alt_fd_lock.c:54-75 | The short scan still protects an existing holder |
| FdTable.OpenFoundKeepsInv | software/Soft_bsp/HAL/src/alt_open.c:105-171 | An open of a device or a filesystem, refused or not, keeps the invariants |
| FdTable.RedirectKeepsInv | software/Soft_bsp/HAL/src/alt_io_redirect.c:58-72 | So does a redirection of a standard channel |
| FdTable.LockGrantedIff | software/Soft_bsp/HAL/src/alt_fd_lock.c:54-75 | A lock is granted exactly if every other descriptor of the device is number alt_max_fd; this differs from the documented rule exactly when that descriptor exists |
| FdTable.LockWhileSharedIsReachable | software/Soft_bsp/HAL/src/alt_fd_lock.c:61-69 | The difference is reachable: two opens of a device, and the first descriptor can be locked |
| FdTable.OpenSucceeded | software/Soft_bsp/HAL/src/alt_open.c:105-171 | A successful open returns the lowest free slot, above 2, changes no other, clears the private bits of the flags, and for a device means that nobody holds it |
| FdTable.LockFreezesDevice | software/Soft_bsp/HAL/src/alt_open.c:79-89 | While a device is held no open of it succeeds and no call adds a descriptor to it |
| FdTable.LockFreezesRun | software/Soft_bsp/HAL/src/alt_open.c:64-171 | Over a run during which the device stays held its descriptors can only go away |
| FdTable.FailedOpenRestoresIff | software/Soft_bsp/HAL/src/alt_open.c:155-168 | A failed open changes at most the free slot it tried, and leaves the table of descriptors as it was if and only if that slot had no flags; the high-water mark may rise |
| FdTable.FailedOpenLosesFlags | software/Soft_bsp/HAL/src/alt_open.c:155-168 | The exception is reachable from the boot table: fcntl on a closed descriptor, then an open that the driver refuses |
| FdTable.FreeSlotsStayClear | software/Soft_bsp/HAL/src/alt_release_fd.c:44-51 | Free slots keep a clear flag word under every call but fcntl on a closed descriptor |
| FdTable.FcntlMovesOnlySettable | software/Soft_bsp/HAL/src/alt_fcntl.c:82-92 | fcntl moves O_APPEND and O_NONBLOCK and nothing else |
| FdCalls.CloseFrees | software/Soft_bsp/HAL/src/alt_close.c:64-101 | `close` of a descriptor above 2 frees it and clears its flags whatever the driver says, passes on what the driver says, and changes no other descriptor, no standard channel and not the high-water mark |
| FdCalls.CloseMakesRoom | software/Soft_bsp/HAL/src/alt_release_fd.c:44-51 | The next open does not fail for want of a descriptor, and if it succeeds gets that one or a lower one |
| FdCalls.OpenAnswers | software/Soft_bsp/HAL/src/alt_open.c:105-171 | What `open` answers, by the first test that fails: no match, no free slot, a device held by anyone (a filesystem is never refused for that), the error of the driver; otherwise the lowest free slot |
| FdCalls.LockSetsOneBit | software/Soft_bsp/HAL/src/alt_fd_lock.c:54-75 | A lock that is granted sets the lock bit of its descriptor and nothing else; one that is refused changes nothing |
| FdCalls.UnlockReleases | software/Soft_bsp/HAL/src/alt_fd_unlock.c:52-56 | TIOCNXCL on a device succeeds, drops the lock bit of its descriptor and nothing else, and leaves the device unlocked unless another descriptor holds it |
| FdCalls.LockRoundTrip | software/Soft_bsp/HAL/src/alt_ioctl.c:127-139 | Releasing undoes locking, and the holder can lock again |
| FdCalls.OtherRequestsPass | software/Soft_bsp/HAL/src/alt_ioctl.c:147-159 | Every other request, and the two on a filesystem, get the answer of the driver and leave the table alone |
| FdCalls.FcntlAnswers | software/Soft_bsp/HAL/src/alt_fcntl.c:66-101 | Reading the flags shows all but the two private ones; after setting them it shows the settable ones as set and the others as before; any other command is refused |
| FdCalls.OpenFlagsReadBack | software/Soft_bsp/HAL/src/alt_fcntl.c:66-101 | The flags given to an open read back, but for the private ones |
| FdCalls.NegativeIsRefused | software/Soft_bsp/HAL/src/alt_close.c:64-101 | A call on a negative descriptor fails and changes nothing |
| FdCalls.RedirectMoves | software/Soft_bsp/HAL/src/alt_io_redirect.c:58-72 | A redirection that succeeds puts what was opened on the standard channel with its flags, frees the descriptor it was opened on and changes no other; one that fails leaves the standard channels alone |
| FdTable.LowestFree | software/Soft_bsp/HAL/src/alt_get_fd.c:77-89 | The slot found is free and every one before it is in use |
| Descriptors.Pool.constructor | software/Soft_bsp/HAL/src/alt_dev.c:118-149 | The boot table: three null channels, the rest free, mark -1 |
| Descriptors.Pool.HolderIsUnique | software/Soft_bsp/HAL/src/alt_fd_lock.c:54-75 | The uniqueness of the holder, for the array in place |
| Descriptors.Pool.GetFd | software/Soft_bsp/HAL/src/alt_get_fd.c:54-101 | The search loop takes the lowest free slot and moves the mark |
| Descriptors.Pool.ReleaseFd | software/Soft_bsp/HAL/src/alt_release_fd.c:44-51 | Clears a slot above 2; 0 to 2 are never freed |
| Descriptors.Pool.FileLocked | software/Soft_bsp/HAL/src/alt_open.c:64-92 | Demands a mark that is not negative, because the index is unsigned; marks the descriptor as a device and finds a holder among 0 to alt_max_fd if and only if there is one |
| Descriptors.Pool.FdLock | software/Soft_bsp/HAL/src/alt_fd_lock.c:54-75 | Scan below alt_max_fd, then the lock bit |
| Descriptors.Pool.FdUnlock | software/Soft_bsp/HAL/src/alt_fd_unlock.c:52-56 | Drops the lock bit |
| Descriptors.Pool.Open | software/Soft_bsp/HAL/src/alt_open.c:105-171 | open in place is one call of the table, result and error included |
| Descriptors.Pool.Close | software/Soft_bsp/HAL/src/alt_close.c:64-101 | close in place: the slot above 2 is free and clear afterwards whatever the driver returns, every other is as it was, and the error of the driver is passed on |
| Descriptors.Pool.Ioctl | software/Soft_bsp/HAL/src/alt_ioctl.c:106-168 | ioctl in place: exclusive-use requests only for devices, otherwise the driver |
| Descriptors.Pool.Fcntl | software/Soft_bsp/HAL/src/alt_fcntl.c:66-101 | fcntl in place |
| Descriptors.Pool.MoveFd | software/Soft_bsp/HAL/src/alt_io_redirect.c:64-71 | Copies a descriptor over a standard channel and frees it |
| Descriptors.Pool.IoRedirect | software/Soft_bsp/HAL/src/alt_io_redirect.c:85-94 | The three redirections in their order |
| AlarmTiming.ExactFirings | software/Soft_bsp/HAL/src/alt_alarm_start.c:80-98 | Started at unbounded tick N with nticks below 2^32 - 1, an alarm fires first at N + nticks + 1 and then exactly one returned period after the other, for every list of periods and however often the 32-bit counter wraps |
| AlarmTiming.ExactIffStartable | software/Soft_bsp/HAL/src/alt_alarm_start.c:82-96 | That schedule is met exactly if nticks is below 2^32 - 1 or the counter is about to wrap; otherwise the alarm fires at the next tick |
| AlarmTiming.PendingFiresOnSchedule | software/Soft_bsp/HAL/src/alt_tick.c:104-139 | Any alarm whose fields stand for a due tick fires on the schedule of its due tick and periods |
| AlarmTiming.TickIsExact | software/Soft_bsp/HAL/src/alt_tick.c:109-115 | At one tick the two tests on time and rollover hold exactly at the due tick, and otherwise the fields still stand for it |
| AlarmTiming.RearmIsPending | software/Soft_bsp/HAL/src/alt_tick.c:127-137 | The new time and rollover flag stand for the tick one period later |
| Alarms.Clock.Insert | software/Soft_bsp/HAL/inc/sys/alt_llist.h:90-98 | The four stores put a node that is not in the list in front of it and keep it well formed; of one that is in the list they make a trap: links that lead in from the head and never out |
| Alarms.Clock.TrappedNeverReturns | software/Soft_bsp/HAL/inc/sys/alt_llist.h:90-98 | From such a head no number of links leads back to the head, so a tick whose callbacks leave the links alone does not end |
| Alarms.Clock.Remove | software/Soft_bsp/HAL/inc/sys/alt_llist.h:105-117 | Takes a node out and leaves it pointing to itself; a second removal changes nothing |
| Alarms.Clock.Start | software/Soft_bsp/HAL/src/alt_alarm_start.c:64-112 | Start in place: an error without a system clock; otherwise the alarm is at the front and due nticks + 1 ticks later, and the links from the head come back to it if and only if the alarm was not running |
| Alarms.Clock.Stop | software/Soft_bsp/HAL/src/alt_tick.c:66-73 | Stop in place |
| Alarms.Clock.Poll | software/Soft_bsp/HAL/src/alt_tick.c:104-115 | The tests of a tick on one alarm hold exactly at its due tick |
| Alarms.Clock.Rearm | software/Soft_bsp/HAL/src/alt_tick.c:127-137 | The next due tick is exactly one period later |
| Alarms.Clock.Visit | software/Soft_bsp/HAL/src/alt_tick.c:102-140 | One turn of the loop over the linked nodes: callback, removal or new time; the alarms the callback starts are in front, each due one tick after what it asked for |
| Alarms.Clock.Tick | software/Soft_bsp/HAL/src/alt_tick.c:87-148 | One tick over the heap: it ends, calls back each alarm present at entry whose time has come once and in list order, removes exactly those that ended, does not visit alarms that callbacks started, keeps the list well formed and every alarm on its schedule |
| Alarms.Clock.LinkLeadsOn | software/Soft_bsp/HAL/src/alt_tick.c:102-102 | The link of a node in the list leads to the next one or back to the head; that of a removed node leads to itself (Alarms.Clock.Remove) |
| AlarmStops.EndsIffSafe | software/Soft_bsp/HAL/src/alt_tick.c:100-141 | When callbacks stop any alarms, a tick ends if and only if no callback stops the alarm whose address the loop has saved, and then it visits, in list order, exactly those not stopped before their turn |
| AlarmStops.Stuck | software/Soft_bsp/HAL/src/alt_tick.c:100-141 | At a node that has left the list the loop stays for ever |
| AlarmStops.StoppingTheNextHangs | software/Soft_bsp/HAL/src/alt_tick.c:100-141 | Two alarms of which the first stops the second: the tick does not end |
| AlarmStops.OnwardStep | software/Soft_bsp/HAL/src/alt_tick.c:100-141 | A walk that ends is always at an alarm of the list, and at none twice |
| AlarmLoop.Visit | software/Soft_bsp/HAL/src/alt_tick.c:102-140 | One turn over the heap when the callback stops any alarms: the list loses exactly those, the loop goes on along the link saved before, and no other alarm is touched |
| AlarmLoop.Step | software/Soft_bsp/HAL/src/alt_tick.c:100-141 | A turn over the heap is a turn of the walk on values, at a removed node or at an alarm visited before, too |
| AlarmLoop.Run | software/Soft_bsp/HAL/src/alt_tick.c:87-141 | The first n turns over the heap, for every n, are those of the walk; the loop is at the head after as many turns as there are alarms if no callback stops the saved alarm, and otherwise never |
| AlarmLoop.Tick | software/Soft_bsp/HAL/src/alt_tick.c:87-148 | When no callback stops the saved alarm, the tick over the heap ends; it calls back in list order exactly those that are due and not stopped before their turn, leaves in the list exactly those not stopped and not ended, keeps the list well formed and every alarm on its schedule |
| LogPrintf.Printf | software/Soft_bsp/HAL/src/alt_log_printf.c:114-341 | For every format string and argument list the three-state loop emits exactly what the description emits, which is what LogMeaning says letter by letter |
| LogPrintf.Step | software/Soft_bsp/HAL/src/alt_log_printf.c:132-339 | One character through the machine: what is emitted and what is still owed make up what was owed |
| LogPrintf.TakeFlag | software/Soft_bsp/HAL/src/alt_log_printf.c:172-199 | How dots, digits and l change the locals, which are 32-bit integers |
| LogPrintf.PrintInteger | software/Soft_bsp/HAL/src/alt_log_printf.c:207-297 | The code under doIntegerPrint emits the described text for every word, width and base |
| LogPrintf.StripSign | software/Soft_bsp/HAL/src/alt_log_printf.c:238-245 | The 32-bit negation is the magnitude, for the most negative int too |
| LogPrintf.CountDigits | software/Soft_bsp/HAL/src/alt_log_printf.c:247-255 | The digit count is exact and the place value is the power of the base that fits, without overflow |
| LogPrintf.PrintDigits | software/Soft_bsp/HAL/src/alt_log_printf.c:281-296 | Division by falling powers emits the digits from the first to the last |
| LogPrintf.PrintLead | software/Soft_bsp/HAL/src/alt_log_printf.c:257-279 | Sign and fill characters in their order |
| LogPrintf.RepChar | software/Soft_bsp/HAL/src/alt_log_printf.c:106-110 | Repeats a character, never for a negative count |
| LogMeaning.SignedDecimal | software/Soft_bsp/HAL/src/alt_log_printf.c:204-297 | %d and %i read back in base 10 as the argument below 2^31 and as the argument less 2^32 from there on, in decimal digits, filled up on the left to the width with zeros after the sign or with blanks |
| LogMeaning.Unsigned | software/Soft_bsp/HAL/src/alt_log_printf.c:302-317 | %u, %o, %x and %X read back in bases 10, 8, 16 and 16 as the argument, without a sign, the last two with lower-case and upper-case digits |
| LogMeaning.OtherLetters | software/Soft_bsp/HAL/src/alt_log_printf.c:319-335 | %c prints the low byte of its argument and %s its string, behind blanks up to the width; any other letter prints nothing |
| LogMeaning.DirectiveText | software/Soft_bsp/HAL/src/alt_log_printf.c:152-341 | A whole directive: a zero right behind the percent sign asks for zeros and does not count for the width; points, digits and l may follow; then the letter is converted, and then the rest of the string is printed with the arguments that are left |
| LogMeaning.LetterUses | software/Soft_bsp/HAL/src/alt_log_printf.c:202-335 | Eight letters, diuoxXcs, take one argument each, and no other does |
| LogMeaning.SignedDirective | software/Soft_bsp/HAL/src/alt_log_printf.c:130-341 | So %d with any flags prints one argument as a signed decimal number |
| LogMeaning.LongIsIgnored | software/Soft_bsp/HAL/src/alt_log_printf.c:196-199 | An l makes no difference to the width |
| LogMeaning.OpenEnd | software/Soft_bsp/HAL/src/alt_log_printf.c:130-141 | A directive that the string ends in prints nothing |
| LogMeaning.PlainText | software/Soft_bsp/HAL/src/alt_log_printf.c:134-162 | Plain text is printed as it is, and two percent signs as one |
| LogMeaning.AltPlainText | software/Soft_bsp/HAL/src/alt_printf.c:60-78 | The same for alt_printf |
| LogMeaning.AltDirective | software/Soft_bsp/HAL/src/alt_printf.c:72-130 | alt_printf: %x reads back in base 16 as the argument in canonical lower-case digits, %c is the low byte, %s the string; any other letter is dropped and takes no argument |
| LogFormat.IntegerTextReadsBack | software/Soft_bsp/HAL/src/alt_log_printf.c:204-297 | For every base, sign and case: the text reads back as the argument, the most negative int included, and has length max(width, digits + sign), for every 32-bit width but those so far below zero that the difference wraps |
| LogFormat.WidthIff | software/Soft_bsp/HAL/src/alt_log_printf.c:172-199 | For every directive the machine works with the decimal number written before the first point if and only if that fits in 32 bits and the digits that go astray after the point leave it as it is; if what is written after the point fits, none do |
| LogFormat.WidthWithStrays | software/Soft_bsp/HAL/src/alt_log_printf.c:172-199 | A width that fits is the number written, with one more digit for each one read while the number after the point is below zero |
| LogFormat.StrayDigitWidens | software/Soft_bsp/HAL/src/alt_log_printf.c:172-199 | With 5.21474836480 the number after the point wraps and the last digit makes a width of 50 |
| LogFormat.WideWidthWraps | software/Soft_bsp/HAL/src/alt_log_printf.c:179-189 | A width of 2^31 is taken for -2^31 |
| Digits.NumeralReadsBack | software/Soft_bsp/HAL/src/alt_log_printf.c:281-296 | The digits read back as the number |
| Digits.CanonicalIsNumeral | software/Soft_bsp/HAL/src/alt_log_printf.c:247-296 | A numeral without needless zeros is the only one for its number |
| AltPrintf.Printf | software/Soft_bsp/HAL/src/alt_printf.c:50-132 | For every format string and argument list alt_printf emits what its recursive description emits |
| AltPrintf.PrintHex | software/Soft_bsp/HAL/src/alt_printf.c:84-113 | The shift-and-mask printer emits the canonical digits of every word, zero included |
| AltPrintf.FindFirstDigit | software/Soft_bsp/HAL/src/alt_printf.c:98-101 | The search for the first non-zero digit ends at it, because the word is not 0 |
| AltPrintf.MaskIsNibble | software/Soft_bsp/HAL/src/alt_printf.c:100-106 | The two bit expressions are a test and the value of one base-16 digit |
| Bits.MaskSelects | software/Soft_bsp/HAL/src/alt_printf.c:100-106 | Masking with 0xF << s keeps four bits in place, for every word and every s |
| AltPrintf.HexPrintersAgree | software/Soft_bsp/HAL/src/alt_printf.c:84-113 | Unpadded hexadecimal output of the two printers is the same for every word |
| AltPrintf.PrintersAgree | software/Soft_bsp/HAL/src/alt_printf.c:60-128 | On every format string whose directives alt_printf knows the two printers print the same, for every argument list whose strings are shorter than 2^31 |
| Layer.ConvertedProduct | twos_compleme.sv:21-26 | A converted product is the signed product plus 2^(W+I+1) if it is negative, 2^(W+I) if it is a negative zero |
| Layer.AccumIs | layer.sv:51-69 | Every partial sum of the chain is the dot product so far plus those turns, modulo 2^WIDTH_SM |
| Layer.ExactSum | layer.sv:45-74 | The exact value of sum_mult, for all weights, inputs and lengths of at least 2 |
| Layer.RightIff | layer.sv:45-74 | Read as a signed number sum_mult is the dot product if and only if twice the negative products plus the negative zeros is a multiple of 2^clog2(LENGHT_I) |
| Layer.RightForTwo | layer.sv:45-74 | With two inputs it is right unless exactly one product is a negative zero |
| Layer.WrongForThree | layer.sv:45-74 | With three inputs one negative product is enough to make it wrong |
| Layer.RightInTheField | layer.sv:45-74 | Modulo 2^(WIDTH_W + WIDTH_I) it is always right |
| Layer.DotFits | layer.sv:7-7 | The true dot product always fits in WIDTH_SM bits |
| Layer.Network.Clock | twos_compleme.sv:18-24 | A clock edge registers the product of every weight and input |
| Layer.Network.SumAfterClock | layer.sv:45-74 | After a clock edge each output of the module in place is right exactly under the condition above |
| ManagerRuns.RunKeepsInv | manager.sv:78-189 | From the first reset cycle on, over every run: ready and down are never both high, the output sentinel is zero or all ones, and all ones in Cmplt_St and Read_O_St |
| ManagerRuns.InvStep | manager.sv:191-333 | One clock keeps that, state by state |
| ManagerRuns.WordsAreLastWrites | manager.sv:212-261 | Weight words, input words and their sentinels hold the last bus write accepted since the last reset, zero if none |
| ManagerRuns.WeightsOnPulse | manager.sv:285-294 | While wr is high outside reset, w_o is those words cut to WIDTH_W bits |
| ManagerRuns.PulseIff | manager.sv:191-294 | wr is high after a clock if and only if Load_W_St was left without a reset, or wr was high and reset is; w_o changes only when a pulse begins or Reset_St is left |
| ManagerRuns.PulseShowsWritesIff | manager.sv:191-218 | In the run after a pulse: wr outlives the next clock exactly with a reset, w_o does not change, and w_o still is the last accepted writes if and only if there is no reset or every weight loaded is zero |
| ManagerRuns.ResetDuringPulse | manager.sv:193-196 | A reset during the pulse leaves wr and w_o and clears the register file, which then matches w_o if and only if every weight loaded was zero |
| ManagerRuns.StalePulseIsReachable | manager.sv:193-196 | A run from any power-up into a reset during the pulse, with wr high and a weight on w_o that is no longer in the register file |
| ManagerRuns.WeightsEndAtSentinel | manager.sv:107-117 | As long as the bus does not write all ones to the weights' sentinel the machine stays in Write_W_St with ready high and changes nothing but weight words |
| ManagerRuns.SentinelLoadsWeights | manager.sv:107-117 | Two clocks after that write the weights are being loaded |
| ManagerRuns.InputsEndAtSentinel | manager.sv:119-128 | The same for Write_I_St and the input words |
| ManagerRuns.SentinelLoadsInputs | manager.sv:119-128 | Two clocks after the write of the inputs' sentinel the inputs are being loaded |
| ManagerRuns.OneWriteReloads | manager.sv:107-117 | Once the weight sentinel is all ones, one accepted weight write is followed by a reload of all weights |
| ManagerRuns.SentinelOutOfReach | manager.sv:374-375 | No bus write changes the output sentinel |
| ManagerRuns.ReadLastsOneClock | manager.sv:130-139 | Read_O_St lasts exactly one clock and returns to Wait_St, in every run |
| ManagerRuns.OutputsAreSampled | manager.sv:296-333 | While a result is awaited or held the output words are the network outputs sampled last |
| ManagerRuns.ReadAnswers | manager.sv:323-333 | A read is answered with the first bus word of the outputs sampled last |
| ManagerRuns.WorkWaitsForChange | manager.sv:309-321 | As long as the network delivers the outputs last reported the machine stays in Work_St with down low |
| ManagerRuns.ChangeIsReported | manager.sv:309-321 | The first outputs that differ are reported |
| ManagerBus.InputsLoaded | manager.sv:296-307 | Load_I_St gives the network, word by word, the last accepted bus writes to the inputs, each cut to WIDTH_I bits; it samples the outputs, drops ready and goes on to Work_St |
| ManagerBus.InputsAreLastLoad | manager.sv:296-301 | Over every run, resets included: i_o holds the bus writes that were the last accepted when the inputs were last loaded, each cut to WIDTH_I bits, and zeros if none were since the registers were last cleared |
| ManagerBus.OnlyLoadsMoveInputs | manager.sv:201-301 | i_o changes only when Load_I_St or the reset state is left |
| ManagerBus.WaitTakesWrites | manager.sv:212-239 | In Wait_St with ready up, exactly which addresses are taken, as weights or as inputs; the last one is beyond the sentinel of the inputs and reaches the first output word |
| ManagerBus.NoRequestNoWrite | manager.sv:212-239 | Without ready, or with read up, or without write, nothing is written |
| ManagerBus.LoadHoldsOffWrites | manager.sv:285-293 | Loading the weights raises wr and drops ready, both for one clock, in which no write is taken |
| ManagerBus.HeldUntilRead | manager.sv:323-333 | A result is held until a read without a write, which delivers the first bus word of the outputs and leads to Read_O_St; until then the delivered word is 0 |
| ManagerBus.ReadThenReady | manager.sv:130-139 | Three clocks after the read the manager takes writes again, and the word read still stands |
| ManagerBus.ComparesWithReported | manager.sv:309-333 | Over every run Work_St compares with the outputs reported last, or zeros |
| ManagerBus.UnpackPacked | manager.sv:304-304 | Taking the packed outputs apart gives back the words that were packed |
| Manager.Device.Clock | manager.sv:65-373 | A clock edge of the module in place, arrays and all, is one step of its description |
| Manager.Device.LoadW | manager.sv:287-290 | The loop that truncates the weights |
| Manager.Device.LoadI | manager.sv:297-301 | The loop that truncates the inputs |
| Manager.Device.BusWrite | manager.sv:218-249 | A write reaches the register file only when it is accepted |
| Manager.Device.Sample | manager.sv:304-304 | The packed outputs, split into bus words |
| Accelerator.LayersHoldLastLoad | ff_network.sv:75-104 | Over every run, resets during the pulse included, the weight latches of the two layers hold the bus writes that were the last accepted when the weights were last loaded, each cut to WIDTH_W bits; a reset does not clear them |
| Accelerator.OnlyLoadsMove | layer.sv:34-40 | No step but a load moves the latches |
| Accelerator.Core.Clock | ff_network.sv:50-104 | Manager and layers in place: a clock edge registers the products of the weights and inputs seen before it, and the latches follow w_o |
| Accelerator.Core.WeightsAreLastLoad | ff_network.sv:75-104 | So each layer in place computes with the last weights loaded |
| Accelerator.Core.InputsAreLastLoad | ff_network.sv:50-74 | And the inputs the first layer in place sees at a clock edge are the last inputs loaded |
| Layer.Network.RegisteredProduct | layer.sv:54-69 | Each registered product is that of one weight of the output and the input with its number |
| IrqRuns.RunKeepsInv | software/Soft_bsp/HAL/inc/priv/alt_legacy_irq.h:118-149 | Over every run of nested handlers, which may have critical sections, IENABLE is alt_irq_active & alt_priority_mask, the mask is that of the innermost open bracket, and PIE is set in a handler exactly inside its bracket and outside its critical sections |
| IrqRuns.NestingIsStrict | software/Soft_bsp/HAL/inc/priv/alt_legacy_irq.h:102-133 | Running handlers have strictly falling interrupt numbers, so none is re-entered and at most 32 are nested |
| IrqRuns.BracketRestores | software/Soft_bsp/HAL/inc/priv/alt_legacy_irq.h:135-149 | A bracket restores the mask it found, whatever nested inside it |
| IrqRuns.ForegroundIsUnmasked | software/Soft_bsp/HAL/inc/priv/alt_legacy_irq.h:118-149 | With no handler running every active source is enabled |
| IrqRuns.CriticalSectionIsQuiet | software/Soft_bsp/HAL/inc/sys/alt_irq.h:113-159 | From the clearing of PIE in the foreground until it is set again no handler runs, whatever lines go high, and IENABLE moves only as the foreground enables and disables |
| IrqRuns.HandlerSectionIsQuiet | software/Soft_bsp/HAL/src/alt_tick.c:66-73 | The same of a critical section of a handler, such as that of alt_alarm_stop: until PIE is set again no other handler runs and no register changes |
| IrqRuns.EnableInHandlerIff | software/Soft_bsp/HAL/inc/priv/alt_legacy_irq.h:86-99 | alt_irq_enable keeps IENABLE in step with the mask exactly if no active source is masked |
| Irq.FirstSet | software/Soft_bsp/HAL/src/alt_irq_handler.c:132-155 | The inner loop finds the lowest set bit |
| Irq.Dispatch | software/Soft_bsp/HAL/src/alt_irq_handler.c:128-159 | For every sequence of polls: one handler for each up to the first empty one, that of its lowest bit; then it returns, unless the first word is empty, which is not tested: then no handler is called and the search does not end |
| IrqController.Controller.Enter | software/Soft_bsp/HAL/src/alt_irq_handler.c:128-155 | An interrupt that is taken dispatches the lowest pending bit, of a higher priority than the handler it interrupts |
| IrqController.Controller.Leave | software/Soft_bsp/HAL/src/alt_irq_handler.c:157-159 | After a handler the next poll dispatches again or returns with PIE as it was |
| IrqController.Controller.Interruptible | software/Soft_bsp/HAL/inc/priv/alt_legacy_irq.h:118-133 | In place: from now on exactly the active sources of a higher priority can interrupt the handler |
| IrqController.Controller.NonInterruptible | software/Soft_bsp/HAL/inc/priv/alt_legacy_irq.h:139-149 | In place: nothing can, and the mask is again that of the handlers below |
| IrqController.Controller.Enable | software/Soft_bsp/HAL/inc/priv/alt_legacy_irq.h:86-99 | In place: the source can interrupt exactly if PIE was set |
| IrqController.Controller.Disable | software/Soft_bsp/HAL/inc/priv/alt_legacy_irq.h:68-81 | In place: the source cannot interrupt |
| IrqController.Controller.RegistersAgree | software/Soft_bsp/HAL/inc/priv/alt_legacy_irq.h:118-149 | IENABLE, mask and depth of nesting of the registers in place, at all times, and PIE set in a handler exactly inside its bracket and outside its critical sections |
| IrqController.Controller.DisableAll | software/Soft_bsp/HAL/inc/sys/alt_irq.h:113-124 | In place, in a handler or not: PIE is cleared and what it was is returned |
| IrqController.Controller.EnableAll | software/Soft_bsp/HAL/inc/sys/alt_irq.h:142-159 | In place: PIE is what it was; in a handler it can only be set inside the bracket |
| TimeOfDay.GetAfterSet | software/Soft_bsp/HAL/src/alt_gettod.c:91-112 | If the tick rate divides 1000000 and the time set is normalised and not negative, a get at any later tick of the same 32-bit count is normalised and exceeds the time set by exactly the elapsed ticks, plus the drift of the 32-bit product in the set, but is never below zero; past the last second of a 32-bit long the clock is turned back |
| TimeOfDay.DriftIff | software/Soft_bsp/HAL/src/alt_settod.c:82-84 | That drift is zero if and only if the product of ticks and microseconds wraps a multiple of 15625 times, in particular if it fits in 32 bits |
| TimeOfDay.ExactIff | software/Soft_bsp/HAL/src/alt_settod.c:82-84 | The get is exact if and only if the result fits in a long and there is no drift, or the exact time is zero and the drift is negative |
| TimeOfDay.DriftIsReachable | software/Soft_bsp/HAL/src/alt_settod.c:82-84 | At 1000 ticks a second and 5000000 ticks the set drifts by 32704 microseconds |
| TimeOfDay.OverflowIsReachable | software/Soft_bsp/HAL/src/alt_gettod.c:109-112 | A time set to the last second of a long is turned back by the next carry |
| TimeOfDay.CarryKeepsTotal | software/Soft_bsp/HAL/src/alt_gettod.c:95-112 | The two normalising loops keep a time whose seconds fit in a long, except that a time before zero becomes zero |
| TimeOfDay.Clock.Set | software/Soft_bsp/HAL/src/alt_settod.c:72-96 | The set in place; nothing changes without a system clock |
| TimeOfDay.Clock.Get | software/Soft_bsp/HAL/src/alt_gettod.c:71-124 | The get in place: both loops end for every stored offset and tick count |
| Flush.DataFlush | software/Soft_bsp/HAL/src/alt_dcache_flush.c:46-70 | Every line that overlaps the region is flushed, lines are flushed in order without repeats, and none more than one past the end |
| Flush.InstructionFlush | software/Soft_bsp/HAL/src/alt_icache_flush.c:42-84 | The place in the cache of every byte of the whole region is flushed, however long it is, with at most one line more than a cacheful |
| Flush.FlushRange | software/Soft_bsp/HAL/src/alt_dcache_flush.c:53-67 | The addresses visited by the loop and the extra one for an unaligned start |
| Flush.CachedTwin | software/Soft_bsp/HAL/src/alt_icache_flush.c:53-58 | Every byte beyond the cap shares its place with one before it |
| Heap.Allocator.Sbrk | software/Soft_bsp/HAL/src/alt_sbrk.c:68-136 | For a request of either sign: -1 exactly if it is not granted; with room, a block that is word aligned, inside the heap and disjoint from all others; a request that gives memory back cuts off the blocks beyond the new end, and leaves the heap sound if and only if its start and the slab of the profiler are left standing, which is not tested |
| Heap.Allocator.Move | software/Soft_bsp/HAL/src/alt_sbrk.c:75-99 | Rounding up and the limit check on the 32-bit sum, as the code does them; the end is rounded up even if the request fails |
| Heap.GrantedIff | software/Soft_bsp/HAL/src/alt_sbrk.c:88-95 | A request of either sign is granted if and only if the new end is an address up to the limit or the 32-bit sum wraps to one; below a limit of 2^31 exactly if it is one |
| Heap.GrantedWithoutRoom | software/Soft_bsp/HAL/src/alt_sbrk.c:88-95 | A request that is granted without room |
| Heap.Allocator.Allocate | software/Soft_bsp/HAL/src/alt_gmon.c:133-148 | A record is a new block like any other exactly if the slab or the heap has room; otherwise it is at address -1, or beyond an end of the heap that has moved back, and later ones are cut from behind it |
| Profile.Graph.Record | software/Soft_bsp/HAL/src/alt_gmon.c:182-206 | Exactly one arc is added and every earlier entry and arc stays; its one or two new records are new blocks of the heap if there is memory for them, and otherwise there are fewer new blocks than records |
| Bits.RoundDown | software/Soft_bsp/HAL/src/alt_sbrk.c:76-76 | Masking with ~3 rounds down to a multiple of four |

## Left out

- Alarms.Clock.Tick: callbacks may stop their own alarm and start new ones; AlarmLoop.Tick has those that stop any alarms but start none.
- AlarmLoop.Tick: a callback that starts an alarm it has just stopped, its own or another, in the middle of a tick.
- IrqRuns.RunKeepsInv: handlers do not enable or disable sources themselves, close the brackets they open, and set PIE outside a bracket only by returning; EnableInHandlerIff says what the first would do.
- UartRuns.CloseDrains: only without flow control; with it a byte may be held back by CTS for any time.
- UartQuiet.QuietGivesFifo: that interrupts are delivered only while unmasked is a property of the hardware, so it is a condition on the run.
- TimeOfDay.GetAfterSet: before the carry the seconds fit in a long, and the counter has not wrapped between set and get.
- Profile.Graph.Record: one of the 64 lists of functions, held as a sequence, newest first.
- Heap.Allocator.Sbrk: stack checking and the limit in bytes, which this build does not include.
- Flush.DataFlush: regions that run past the end of the address space.
- The numeric values of O_APPEND, O_NONBLOCK and the error numbers, which are defined in headers that are not part of this model.
- The polled UART driver, direct drivers, semihosting and the JTAG logging helpers: compiled out or thin wrappers.
- What clears receive errors in the UART hardware, and overrun of TXDATA when DCTS fires without TRDY: the device is not part of this model.
- A UART `write` with a negative length, which does not end.
- System-call stubs, start-up code, constructors, busy waits, register offsets, semaphores and event flags, which are empty in this single-threaded build.
- Device-name lookup, flash and DMA registries: the result of a lookup is a parameter of open.
- The histogram of the profiler and the start of its sampling timer.
- The sigmoid table between the layers, older modules and testbenches; the inputs of the second layer are a parameter.
- That the manager ever leaves Work_St: the network need not change its outputs, and WorkWaitsForChange says what then happens.
