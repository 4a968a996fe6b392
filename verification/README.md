# Verified model of the scanning lidar firmware

The firmware of a scanning lidar: a Nios II application and the hardware abstraction layer and drivers it links.
The project models the parts whose correctness spans many steps and proves what they are for. The verifier is the only
judge of these claims: `dafny verify dfyconfig.toml` checks the whole project.

How it is laid out:

- **JTAG UART fast driver** (`JtagRing`, `JtagReceive`, `JtagTransmit`, `JtagReads`, `JtagWrites`, `JtagUart`,
  `JtagForeground`). Two rings shared by foreground calls and an interrupt routine. The models let the interrupt run between any two accesses of a call,
  also between two bytes of a copy. The interrupt routine, the read and the write run on the state block itself and are
  proved to be runs of the models, so the refinement theorems hold of them.
- **HAL alarms** (`LinkedList`, `AlarmSchedule`, `AlarmClock`). A wrapping 32-bit tick counter and one rollover bit per
  alarm, over pointers in a doubly linked list, refine a schedule on an unbounded clock.
- **File descriptors** (`FdPool`, `FdEffects`, `FdTable`). Allocation, exclusive locks and flag masks over all runs of the
  system calls, and what each call does and returns.
- **I2C EEPROM and alarm regions** (`I2cBus`, `I2cRead`, `EepromLines`, `EepromDevice`, `EepromDriver`, `Regions`,
  `RegionServer`). Pin writes, a decoder of the lines by UM10204 sections 3.1.3 to 3.1.6, a device that stores and answers
  only what it decodes and wraps inside its pages, paged writes, and the slots that hold what the PC loads.
- **Scan stream** (`LaserQueue`, `FrameIngest`, `ScanText`, `FrameReceiver`, `MainLoop`, `Telegram`, `TelegramReader`,
  `ScanSender`, `Warnings`, `WarningMonitor`). Words from the FPGA through ring queue and parser to the SICK telegram and
  its segments, a reader that recovers the scan from them, and the four warning flags.
- **SPI and serial flash** (`SpiTransfer`, `SpiMaster`, `EpcsChip`, `EpcsProtocol`, `EpcsWire`, `EpcsFlash`,
  `EpcsDriver`). A credit loop against any device and timing; above it the flash commands, down to their bytes and up to
  a whole write across sectors.
- **Time of day and log printing** (`TimeOfDay`, `IntegerText`, `LogFormat`, `LogPort`).

Each imperative class keeps the program's fields and loops and is proved against specification functions; the lemmas say
what those functions mean. Machine integers are bounded mathematical integers, and wrap-around is written out.

Assumptions. Callbacks of alarms do not start or stop other alarms. The slave acknowledges every byte of a transaction.
A receive register of the SPI core is ready only while a reply is owed. A flash chip obeys a write only with its enable
latch set and while not busy, clears the latch with every write and mode change, and leaves busy after finitely many
status reads; its sectors have 64 KB.

Where the code does something else than its comments or callers suggest, the model follows the code:

- The comment on `alt_fd_lock` promises that the caller is the only user of the device. The scan leaves out the descriptor
  at the high-water mark, so the promise holds exactly under the condition of `FdPool.GrantIsSoleExactlyWhen`; mutual
  exclusion holds always.
- An alarm with the longest delay runs at the next tick instead (`AlarmClock.LongestDelayRunsAtOnce`).
- `settimeofday` multiplies ticks in 32 bits, `gettimeofday` in 64 (`TimeOfDay.SetThenGetExactlyWhen`). In the last second
  of the 31-bit range a sample may wrap, and then the time returned is zero (`TimeOfDay.ExactGetExactlyWhen`).
- The EEPROM driver refuses reads above address 120000 without an error, so slots above 56 do not come back
  (`Regions.RoundTripExactlyWhen`), and slots 62, 126, 190 and 254 lie over the parameter block
  (`Regions.LoadKeepsParametersExactlyWhen`).
- A sequential read acknowledges its last byte (`I2cRead.ReadTransactionDecodes`).
- The comment on the temperature check speaks of five samples; the last one decides
  (`Warnings.TemperatureRisesExactlyWhen`).
- A frame that does not fit behind the words the queue holds is lost when the queue is cleared under it
  (`FrameIngest.DeliveredExactlyWhen`).
- Every telegram declares 811 measurements, however many the scan has (`TelegramReader.DeclaredReadsBackExactlyWhen`).
- A flash write past the end of the device drops what does not fit and reports success (`EpcsFlash.ReadsBackExactlyWhen`),
  and a transaction that moves no words would never return (`SpiTransfer.NothingToMoveHangs`).

The flash controller's source file, `fpga_project/software/scan_bsp/drivers/src/altera_avalon_epcs_flash_controller.c`,
is not UTF-8 text. The table cites its header for it and gives the lines of the definitions in the third column.

## Model

| member | source | states |
|---|---|---|
| JtagReceive.ReceiveRefinement | fpga_project/software/scan_bsp/drivers/src/altera_avalon_jtag_uart_read.c:115-142 | for every interleaving of interrupts with the steps of reads, bytes returned, then bytes the current read holds, then the ring are exactly the valid bytes taken from the hardware, in order; every completed read reports its own bytes |
| JtagReceive.NoLostReadWakeup | fpga_project/software/scan_bsp/drivers/src/altera_avalon_jtag_uart_init.c:156-166 | with hardware whose invalid reads report nothing available, receive interrupts are never off unless the ring is full or a reader that freed space has yet to re-enable them |
| JtagReceive.DishonestReadLosesWakeup | fpga_project/software/scan_bsp/drivers/src/altera_avalon_jtag_uart_init.c:144-162 | that assumption is needed: one invalid first read that still reports characters turns interrupts off on an empty ring with no reader |
| JtagReceive.WakeupsKeptExactlyWhen | fpga_project/software/scan_bsp/drivers/src/altera_avalon_jtag_uart_init.c:125-167 | over all runs, no wakeup is ever lost exactly when no invalid read reports further characters: from any hardware with one such read, however late, interrupts and single-byte reads lead to the loss |
| JtagReceive.FillAppends | fpga_project/software/scan_bsp/drivers/src/altera_avalon_jtag_uart_init.c:132-154 | the receive loop only appends valid bytes to what is unread, and with honest hardware leaves data behind only when the ring is full |
| JtagReceive.PublishHandsOver | fpga_project/software/scan_bsp/drivers/src/altera_avalon_jtag_uart_read.c:136-140 | advancing rx_out hands over exactly the copied bytes, across the wrap and with stale snapshots |
| JtagReceive.ReadableMeans | fpga_project/software/scan_bsp/drivers/src/altera_avalon_jtag_uart_read.c:119-134 | a read finds nothing to copy exactly when the ring is empty, and otherwise all of it up to the end of the buffer |
| JtagReceive.RxPassIs | fpga_project/software/scan_bsp/drivers/src/altera_avalon_jtag_uart_init.c:125-167 | one receive pass appends the bytes of the valid words up to the first invalid one or as many as fit, and switches its interrupt off exactly when the last word read says that more wait, or without reading on a full ring |
| JtagReads.ReadReturnsWaiting | fpga_project/software/scan_bsp/drivers/src/altera_avalon_jtag_uart_read.c:115-203 | whatever runs during a read call, it returns at least the bytes that were waiting when it was made, as many as it asked for, in front of anything that came later |
| JtagReads.ReadCompletes | fpga_project/software/scan_bsp/drivers/src/altera_avalon_jtag_uart_read.c:115-203 | with no interrupt in between a read call returns, with exactly the bytes that were waiting, as many as asked for, and with EWOULDBLOCK or EIO if there were none |
| JtagRing.DataFields | fpga_project/software/scan_bsp/drivers/inc/altera_avalon_jtag_uart_regs.h:44-49 | a DATA word put together from its fields gives them back |
| JtagRing.ControlFields | fpga_project/software/scan_bsp/drivers/inc/altera_avalon_jtag_uart_regs.h:60-71 | so does a CONTROL word |
| JtagTransmit.TransmitRefinement | fpga_project/software/scan_bsp/drivers/src/altera_avalon_jtag_uart_write.c:100-127 | for every interleaving, bytes given to the hardware, then the ring are exactly the prefixes the completed writes reported as accepted, then what the current write has published |
| JtagTransmit.NoLostWriteWakeup | fpga_project/software/scan_bsp/drivers/src/altera_avalon_jtag_uart_write.c:136-139 | unsent bytes never sit in the ring with transmit interrupts off and no writer about to enable them |
| JtagTransmit.WritableLeavesOneSlot | fpga_project/software/scan_bsp/drivers/src/altera_avalon_jtag_uart_write.c:109-114 | the three-way space computation never offers the slot that would make a full ring look empty, and offers nothing exactly when the ring is full |
| JtagTransmit.PassRespectsSpace | fpga_project/software/scan_bsp/drivers/src/altera_avalon_jtag_uart_init.c:169-195 | one interrupt pass in any reachable state writes at most as many bytes as the hardware space it read, and loses none |
| JtagTransmit.DrainMoves | fpga_project/software/scan_bsp/drivers/src/altera_avalon_jtag_uart_init.c:174-184 | each byte drained moves from the ring to the hardware and costs one unit of space |
| JtagTransmit.TxPassIs | fpga_project/software/scan_bsp/drivers/src/altera_avalon_jtag_uart_init.c:169-195 | one transmit pass sends as much as the hardware takes, oldest first, and switches its interrupt off exactly when it has run out of bytes before the hardware has run out of space |
| JtagWrites.WriteTakesWhatFits | fpga_project/software/scan_bsp/drivers/src/altera_avalon_jtag_uart_write.c:83-215 | whatever runs during a write call, it takes at least what there was room for when it was made, and all of its data if it may block and is never told that the host is gone |
| JtagWrites.WriteCompletes | fpga_project/software/scan_bsp/drivers/src/altera_avalon_jtag_uart_write.c:83-215 | with no interrupt in between a write call returns, with exactly as many bytes as there was room for, which now stand behind the unsent ones |
| JtagUart.UartState.constructor | fpga_project/software/scan_bsp/drivers/src/altera_avalon_jtag_uart_init.c:60-95 | the state block starts with both rings empty and only receive interrupts on |
| JtagUart.UartState.ReceivePending | fpga_project/software/scan_bsp/drivers/src/altera_avalon_jtag_uart_init.c:125-167 | the receive part of the interrupt routine, on the buffer itself, is the model's receive pass |
| JtagUart.UartState.TransmitPending | fpga_project/software/scan_bsp/drivers/src/altera_avalon_jtag_uart_init.c:169-195 | the transmit part of the interrupt routine is the model's transmit pass |
| JtagUart.UartState.Irq | fpga_project/software/scan_bsp/drivers/src/altera_avalon_jtag_uart_init.c:117-196 | the whole interrupt routine is the sequence of passes its control words ask for |
| JtagUart.RoundServes | fpga_project/software/scan_bsp/drivers/src/altera_avalon_jtag_uart_init.c:117-196 | one round serves just what its control word asks for: bit 8 the ring from the hardware, bit 9 the hardware from the other ring |
| JtagUart.IrqKeepsInvariants | fpga_project/software/scan_bsp/drivers/src/altera_avalon_jtag_uart_init.c:117-196 | a whole interrupt keeps both ring invariants whatever the foreground was in the middle of |
| JtagForeground.Foreground.Preempt | fpga_project/software/scan_bsp/drivers/src/altera_avalon_jtag_uart_init.c:117-196 | an interrupt at any point of a call is a few interrupt actions of both models and disturbs neither call |
| JtagForeground.Foreground.Read | fpga_project/software/scan_bsp/drivers/src/altera_avalon_jtag_uart_read.c:100-203 | the read call with interrupts let in after every access is one complete read of the receive model, logged with exactly the bytes left in the caller's buffer; it returns what was waiting and, unless the host is found gone, at least one byte if it may block; with no interrupt to come it returns exactly what was waiting |
| JtagForeground.Foreground.ReadAll | fpga_project/software/scan_bsp/drivers/src/altera_avalon_jtag_uart_read.c:119-142 | the inner loop reads until the ring looks empty or the request is met |
| JtagForeground.Foreground.CopyOut | fpga_project/software/scan_bsp/drivers/src/altera_avalon_jtag_uart_read.c:136-140 | the copy out of the ring stages the oldest unread bytes although interrupts run between them |
| JtagForeground.Foreground.Write | fpga_project/software/scan_bsp/drivers/src/altera_avalon_jtag_uart_write.c:83-215 | the write call is one complete write of the transmit model, with the code it returns; it takes what there was room for, exactly that with no interrupt to come, and all of its data if it may block and the host is found there at every test |
| JtagForeground.Foreground.WriteAll | fpga_project/software/scan_bsp/drivers/src/altera_avalon_jtag_uart_write.c:102-139 | all that fits is copied and published, then transmit interrupts are enabled on every round |
| JtagForeground.Foreground.CopyIn | fpga_project/software/scan_bsp/drivers/src/altera_avalon_jtag_uart_write.c:122-126 | the copy fills slots the interrupt routine never sends before tx_in moves over them |
| JtagForeground.Foreground.Conserved | fpga_project/software/scan_bsp/drivers/src/altera_avalon_jtag_uart_read.c:115-142 | on the state block itself, at any point of either call: conservation in both directions and no lost interrupt enable |
| LinkedList.InsertAtFront | fpga_project/software/scan_bsp/HAL/inc/sys/alt_llist.h:90-98 | inserting makes the entry the first of the list and keeps the others in order |
| LinkedList.RemoveCloses | fpga_project/software/scan_bsp/HAL/inc/sys/alt_llist.h:105-117 | removing an entry joins its neighbours and leaves it pointing to itself |
| LinkedList.RemoveAgain | fpga_project/software/scan_bsp/HAL/inc/sys/alt_llist.h:105-117 | removing an entry that was already removed changes nothing |
| AlarmSchedule.RunsExactly | fpga_project/software/scan_bsp/HAL/src/alt_tick.c:96-141 | over any run of ticks and of starts and stops of other alarms, an alarm started at tick T with delay n runs first at T + n + 1 and then at exactly the running sums of its callback's non-zero returns until a zero |
| AlarmSchedule.RunsAre | fpga_project/software/scan_bsp/HAL/src/alt_tick.c:96-141 | the same runs without recursion: the first is T + n + 1, each later one follows the one before by what the callback returned there, and none is missing up to the present |
| AlarmSchedule.StoppedStaysSilent | fpga_project/software/scan_bsp/HAL/src/alt_tick.c:66-73 | a stopped alarm never runs again unless it is started again |
| AlarmSchedule.WalkOf | fpga_project/software/scan_bsp/HAL/src/alt_tick.c:100-141 | a tick treats an alarm the same wherever it stands in the list and whatever the others do: once if due, not at all otherwise |
| AlarmClock.StartRepresents | fpga_project/software/scan_bsp/HAL/src/alt_alarm_start.c:80-96 | the 32-bit time and the rollover bit represent the due tick T + n + 1 exactly when the delay is below 2^32 - 1 or the counter is on its last value |
| AlarmClock.LongestDelayRunsAtOnce | fpga_project/software/scan_bsp/HAL/src/alt_alarm_start.c:82-96 | otherwise the longest delay is not honoured: the alarm runs at the very next tick |
| AlarmClock.TickDecides | fpga_project/software/scan_bsp/HAL/src/alt_tick.c:109-115 | the machine's test for expiry is the unbounded one, across every wrap of the counter |
| AlarmClock.RescheduleRepresents | fpga_project/software/scan_bsp/HAL/src/alt_tick.c:127-137 | a rescheduled alarm is represented again |
| AlarmClock.AlarmSystem.constructor | fpga_project/software/scan_bsp/HAL/src/alt_tick.c:44-59 | the list is empty and the counter zero |
| AlarmClock.AlarmSystem.Start | fpga_project/software/scan_bsp/HAL/src/alt_alarm_start.c:64-112 | starting registers the alarm in the schedule, or fails with EINVAL or ENOTSUP and changes nothing |
| AlarmClock.AlarmSystem.Stop | fpga_project/software/scan_bsp/HAL/src/alt_tick.c:66-73 | stopping takes the alarm out of the schedule and leaves the others |
| AlarmClock.AlarmSystem.Visit | fpga_project/software/scan_bsp/HAL/src/alt_tick.c:109-139 | one alarm of the walk: run and rescheduled, removed, or left alone, as the schedule says |
| AlarmClock.AlarmSystem.VisitAndMove | fpga_project/software/scan_bsp/HAL/src/alt_tick.c:100-141 | the saved next pointer carries the walk on past an alarm that removed itself |
| AlarmClock.AlarmSystem.Tick | fpga_project/software/scan_bsp/HAL/src/alt_tick.c:87-148 | a tick of the machine is a tick of the unbounded schedule |
| FdPool.MutualExclusion | fpga_project/software/scan_bsp/HAL/src/alt_fd_lock.c:54-75 | in every run a device has at most one exclusive holder, although the scan stops one short |
| FdPool.LockedDeviceIsClosed | fpga_project/software/scan_bsp/HAL/src/alt_open.c:64-92 | in every run, while a device is locked, opening it fails and restores the pool, and the set of descriptors on it never grows |
| FdPool.LockBitOnlyByItsCalls | fpga_project/software/scan_bsp/HAL/src/alt_fcntl.c:86-92 | in every run the lock bit is set only by a granted TIOCEXCL and cleared only by TIOCNXCL, close or redirection of that descriptor; neither open flags nor F_SETFL can forge or clear it |
| FdPool.GrantIsSoleExactlyWhen | fpga_project/software/scan_bsp/HAL/src/alt_fd_lock.c:61-69 | a granted lock makes the caller the only user of its device exactly when the descriptor at the high-water mark is its own or not on that device |
| FdPool.SharedDeviceCanBeLocked | fpga_project/software/scan_bsp/HAL/src/alt_fd_lock.c:61-69 | the flaw happens: a device opened twice can be locked through its first descriptor |
| FdPool.MarkCoversHolders | fpga_project/software/scan_bsp/HAL/src/alt_get_fd.c:77-89 | the high-water mark covers every lock holder, so the scan at open cannot miss one |
| FdPool.FreeSlotsUnmarked | fpga_project/software/scan_bsp/HAL/src/alt_release_fd.c:44-51 | a free descriptor carries neither internal flag |
| FdPool.OpenEffect | fpga_project/software/scan_bsp/HAL/src/alt_open.c:130-166 | an open either takes a free descriptor on an unlocked device with the caller's flags less the internal ones, or leaves the open descriptors as they were |
| FdPool.RunKeepsInv | fpga_project/software/scan_bsp/HAL/src/alt_open.c:105-170 | every legal run of open, close, ioctl, fcntl and redirection keeps the pool invariant |
| FdEffects.CloseEffect | fpga_project/software/scan_bsp/HAL/src/alt_close.c:64-101 | close frees its descriptor whatever the driver says, takes it and no other from the device's users, and leaves the other descriptors and the high-water mark alone |
| FdEffects.CyclesChangeNothing | fpga_project/software/scan_bsp/HAL/src/alt_close.c:83-87 | any number of open and close pairs leaves the descriptors as they were, and open returns what it returned at first |
| FdEffects.OpenResult | fpga_project/software/scan_bsp/HAL/src/alt_open.c:130-166 | open returns ENODEV, EMFILE, EACCES or the driver's error exactly when the device is unknown, the table full, the device locked or the driver unwilling, and otherwise the lowest free descriptor |
| FdEffects.OpenFlagsAre | fpga_project/software/scan_bsp/HAL/src/alt_open.c:138-145 | open keeps the caller's flags but for the two internal bits, clears the lock and marks devices |
| FdEffects.FcntlEffect | fpga_project/software/scan_bsp/HAL/src/alt_fcntl.c:66-101 | F_SETFL takes O_NONBLOCK and O_APPEND from its argument and changes no other bit and no other descriptor |
| FdEffects.RedirectEffect | fpga_project/software/scan_bsp/HAL/src/alt_io_redirect.c:58-72 | a redirection that succeeds opens the standard descriptor on the new device and frees the intermediate one; one that fails changes no descriptor |
| FdEffects.IoctlEffect | fpga_project/software/scan_bsp/HAL/src/alt_ioctl.c:106-168 | TIOCEXCL and TIOCNXCL change only the lock bit of their own descriptor; what they and other requests return |
| FdTable.Table.constructor | fpga_project/software/scan_bsp/HAL/src/alt_dev.c:118-149 | the standard descriptors start on the null device, the others free, the high-water mark at -1 |
| FdTable.Table.GetFd | fpga_project/software/scan_bsp/HAL/src/alt_get_fd.c:77-100 | the search loop allocates the first free descriptor and moves the high-water mark, or returns EMFILE |
| FdTable.Table.Release | fpga_project/software/scan_bsp/HAL/src/alt_release_fd.c:44-51 | descriptors above the standard ones are cleared, the standard ones stay |
| FdTable.Table.FileLocked | fpga_project/software/scan_bsp/HAL/src/alt_open.c:64-92 | the scan marks the descriptor as a device and finds a lock holder on it if there is one |
| FdTable.Table.Open | fpga_project/software/scan_bsp/HAL/src/alt_open.c:105-170 | open is the pool's open, with the error number of its failure |
| FdTable.Table.Close | fpga_project/software/scan_bsp/HAL/src/alt_close.c:64-101 | close releases the descriptor even if the driver reports an error, with the error number of its failure |
| FdTable.Table.FdLock | fpga_project/software/scan_bsp/HAL/src/alt_fd_lock.c:54-75 | the scan grants the lock unless another descriptor below the mark is on the device |
| FdTable.Table.FdUnlock | fpga_project/software/scan_bsp/HAL/src/alt_fd_unlock.c:52-56 | unlocking clears the lock bit only |
| FdTable.Table.Ioctl | fpga_project/software/scan_bsp/HAL/src/alt_ioctl.c:106-168 | TIOCEXCL and TIOCNXCL are handled for devices; other requests go to the driver, with ENOTTY and EBADFD otherwise |
| FdTable.Table.Fcntl | fpga_project/software/scan_bsp/HAL/src/alt_fcntl.c:66-101 | F_GETFL hides the internal flags, F_SETFL changes only the permitted ones |
| FdTable.Table.Redirect | fpga_project/software/scan_bsp/HAL/src/alt_io_redirect.c:58-72 | redirecting copies the newly opened descriptor over a standard one and releases it |
| I2cBus.TransactionSeen | fpga_project/software/scan/src/iic.c:25-73 | SDA moves during a high clock only at START and STOP; in between the slave sees the bits of the bytes, each followed by a low acknowledge bit |
| I2cBus.TransactionDecodes | fpga_project/software/scan/src/iic.c:166-181 | for every byte sequence, a slave that decodes the lines by UM10204 sections 3.1.3 to 3.1.6 receives exactly START, those bytes, STOP |
| I2cBus.BitsSpellByte | fpga_project/software/scan/src/iic.c:116-131 | the bits the shift loop sends shift back into the byte |
| I2cBus.ConditionLevels | fpga_project/software/scan/src/iic.c:25-50 | START is a falling SDA under a high clock, STOP a rising one, level by level |
| I2cBus.MostSignificantFirst | fpga_project/software/scan/src/iic.c:116-131 | bit i on the line is bit 7 - i of the byte |
| I2cBus.UnackedSeen | fpga_project/software/scan/src/iic.c:57-73 | a byte that is not acknowledged ends in a high bit and a STOP |
| I2cRead.ReadTransactionSeen | fpga_project/software/scan/src/iic.c:273-302 | what a sequential read puts on the lines: address, repeated START, the bytes each with a low acknowledge bit, one more high bit, STOP |
| I2cRead.ReadTransactionDecodes | fpga_project/software/scan/src/iic.c:273-302 | a decoder recovers the whole read exchange; since the last byte has been acknowledged already, the final clock pulse belongs to no byte |
| I2cRead.ExchangeDecodes | fpga_project/software/scan/src/iic.c:273-302 | at any point of a sequential read a decoder of the lines has recovered the address bytes, the repeated START, the read command and the bytes read so far |
| EepromLines.CommitStoresBytes | fpga_project/software/scan/src/iic.c:166-181 | the device that decodes the lines stores exactly the bytes the driver meant to send |
| EepromLines.AnswerIs | fpga_project/software/scan/src/iic.c:248-302 | the byte such a device shifts out, decided by nothing but the messages it decoded, is the one behind the address the driver meant and the bytes read since |
| EepromLines.AddressBytesAre | fpga_project/software/scan/src/iic.c:166-181 | the select byte is 0xa0, or 0xa2 with address bit 16, and the address follows high byte first |
| EepromLines.ReadCommitsNothing | fpga_project/software/scan/src/iic.c:273-302 | a sequential read, decoded, is no write and stores nothing |
| EepromDriver.Eeprom.StartCondition | fpga_project/software/scan/src/iic.c:25-33 | the pin writes of a start condition |
| EepromDriver.Eeprom.StopCondition | fpga_project/software/scan/src/iic.c:40-50 | the pin writes of a stop condition |
| EepromDriver.Eeprom.WaitSlaveAck | fpga_project/software/scan/src/iic.c:57-73 | the acknowledge slot, and the stop condition if it was not acknowledged |
| EepromDriver.Eeprom.IicWrite | fpga_project/software/scan/src/iic.c:116-131 | the shift loop sends the bits of the byte, most significant first |
| EepromDriver.Eeprom.IicRead | fpga_project/software/scan/src/iic.c:138-158 | the loop that shifts sampled bits in returns the byte the slave shifted out |
| EepromDriver.Eeprom.MasterSendAck | fpga_project/software/scan/src/iic.c:79-108 | the master's acknowledge pulse, low or high |
| EepromDriver.Eeprom.WriteChunk | fpga_project/software/scan/src/iic.c:203-226 | one transaction of a paged write stores its data the way the device wraps it |
| EepromDriver.Eeprom.WritePage | fpga_project/software/scan/src/iic.c:190-241 | the page loop and the remainder do what the paged-write function says |
| EepromDriver.Eeprom.WriteByte | fpga_project/software/scan/src/iic.c:166-181 | one byte of the memory changes, at the address modulo the device size |
| EepromDriver.Eeprom.ReadByteAt | fpga_project/software/scan/src/iic.c:248-271 | a random read returns the byte at the address, or all ones beyond the driver's limit; the device answers to what it decodes from the lines, and its memory stays as it was |
| EepromDriver.Eeprom.ReadRange | fpga_project/software/scan/src/iic.c:273-302 | the bytes taken bit by bit from the lines, where the device puts each in answer to the messages decoded so far, are the memory from the address on; nothing is stored |
| EepromDriver.Eeprom.SequentialRead | fpga_project/software/scan/src/iic.c:273-302 | a sequential read puts the memory from the address on into the caller's range, or nothing beyond the driver's limit |
| EepromDriver.ReadLimitIs | fpga_project/software/scan/src/iic.c:273-302 | reads that start above 120000 leave the buffer alone, all others fill it |
| EepromDevice.PagedWriteIsBlock | fpga_project/software/scan/src/iic.c:190-241 | on a device that wraps inside 256-byte pages and takes the bank once per transaction, a paged write is a plain block write on every range that stays in one 64 KB bank and starts on a page boundary or fits one page |
| EepromDevice.PagedWriteIsBlockExactlyWhen | fpga_project/software/scan/src/iic.c:190-241 | and on no other range: the equality for all memories and data holds exactly on those ranges |
| EepromDevice.MisfitGoesWrong | fpga_project/software/scan/src/iic.c:190-241 | on any other range some memory and data are stored wrongly |
| Regions.OrdersCancel | fpga_project/software/scan/src/pc2dev.c:89-93 | big-endian parse, little-endian storage and the pair swap of the reply cancel |
| Regions.SlotFits | fpga_project/software/scan/src/region.c:25-28 | every paged write of the region and parameter code meets the condition under which it is a block write |
| Regions.SaveIsBlock | fpga_project/software/scan/src/region.c:18-31 | saving a region writes boundary and vertices as one block at the slot's place, and the selection in byte 3 |
| Regions.TouchesOnly | fpga_project/software/scan/src/region.c:18-31 | no command changes a byte outside its slot's place, the selection bytes or the parameter block |
| Regions.LoadLaysOut | fpga_project/software/scan/src/region.c:18-31 | a load puts two bytes per point, low byte first although the packet has the high byte first, and the vertices behind them at the slot's place, and the selection into byte 3 |
| Regions.SelectionKept | fpga_project/software/scan/src/pc2dev.c:62-71 | a group up to 15 is stored big-endian in bytes 2 and 3 and stays over any later commands that select nothing and load no slot lying over them |
| Regions.LargeGroupRemembered | fpga_project/software/scan/src/pc2dev.c:62-71 | a larger group is only remembered, and its low byte reaches the device with the next load |
| Regions.StoredAfterRun | fpga_project/software/scan/src/pc2dev.c:86-107 | after any run a slot holds the last packet loaded to its place |
| Regions.RegionRoundTrip | fpga_project/software/scan/src/pc2dev.c:501-514 | over whole runs, a request for a slot up to 56 returns byte for byte the last packet loaded to its place, whatever else was stored before and after |
| Regions.LoadThenRequest | fpga_project/software/scan/src/pc2dev.c:501-514 | loading a slot, then other slots, then asking for it returns the packet from its slot byte to the end of the vertices |
| Regions.RoundTripExactlyWhen | fpga_project/software/scan/src/iic.c:277-278 | the driver's address limit makes the round trip hold for all packets and buffers exactly for slots up to 56 |
| Regions.BoundaryReadsBack | fpga_project/software/scan/src/region.c:75-83 | reading a slot back for the FPGA returns the points of the last packet loaded to its place |
| Regions.OtherSlotsKept | fpga_project/software/scan/src/region.c:24-28 | loading another place, selecting a group or saving parameters leaves a stored slot alone |
| Regions.LoadKeepsParametersExactlyWhen | fpga_project/software/scan/src/region.c:24-28 | a load leaves the parameter block alone for every state and packet exactly when the slot number is not 62 modulo 64 |
| Regions.ParametersRoundTrip | fpga_project/software/scan/src/region.c:91-97 | saved parameters come back after any run without another save or a load to address zero |
| RegionServer.Server.constructor | fpga_project/software/scan/inc/region.h:88-101 | the region record over a device |
| RegionServer.Server.SaveToEeprom | fpga_project/software/scan/src/region.c:18-31 | the save writes the selection and the two paged blocks |
| RegionServer.Server.LoadRegion | fpga_project/software/scan/src/pc2dev.c:86-107 | the load case parses the packet into the record and saves it |
| RegionServer.Server.SelectAlarmRegion | fpga_project/software/scan/src/pc2dev.c:62-71 | the selection is remembered always and stored only up to 15 |
| RegionServer.Server.SaveSysPara | fpga_project/software/scan/src/region.c:91-97 | the parameter record is written through a zeroed buffer |
| RegionServer.Server.ReadFromRom | fpga_project/software/scan/src/region.c:75-80 | the slot's bytes are read over the points in memory |
| RegionServer.Server.ReplyRegion | fpga_project/software/scan/src/pc2dev.c:501-514 | the reply body from its slot byte on, with nothing else in the buffer changed |
| RegionServer.Server.SwapBytes | fpga_project/software/scan/src/pc2dev.c:507-512 | the in-place loop exchanges the bytes of every pair and touches nothing else |
| LaserQueue.PushContents | fpga_project/software/scan/src/queue.c:51-56 | a push appends, except on a full queue, which it turns into an empty one |
| LaserQueue.PopContents | fpga_project/software/scan/src/queue.c:64-72 | a pop takes the oldest word; on an empty queue it returns a stale one and the queue turns full |
| LaserQueue.Queue.constructor | fpga_project/software/scan/src/queue.c:21-29 | the queue starts empty over a zeroed array |
| LaserQueue.Queue.ClearAll | fpga_project/software/scan/src/queue.c:37-42 | clearing resets both indices |
| LaserQueue.Queue.Enqueue | fpga_project/software/scan/src/queue.c:51-56 | the push on the array |
| LaserQueue.Queue.Dequeue | fpga_project/software/scan/src/queue.c:64-72 | the pop on the array |
| LaserQueue.Queue.IsFull | fpga_project/software/scan/src/queue.c:94-100 | the full test holds exactly with 2047 words queued |
| LaserQueue.Queue.IsEmpty | fpga_project/software/scan/src/queue.c:108-114 | the empty test holds exactly with nothing queued |
| LaserQueue.Queue.CountItems | fpga_project/software/scan/src/queue.c:80-86 | the count is the number of queued words |
| FrameIngest.SplittingIsIrrelevant | fpga_project/software/scan/src/main.c:85-106 | how the words are split over passes of the main loop does not matter |
| FrameIngest.PassConserves | fpga_project/software/scan/src/main.c:85-106 | a pass does exactly what its words do, leaves the rest, and takes at least one word |
| FrameIngest.FrameDelivered | fpga_project/software/scan/src/fpga2nios_protocol.c:76-118 | a distance frame after junk is delivered, payload and trailer intact, if it fits behind what the queue holds |
| FrameIngest.FrameDropped | fpga_project/software/scan/src/main.c:87-88 | with no header in its payload a frame that does not fit is lost when the queue is cleared in its middle, and the receiver is ready again |
| FrameIngest.DeliveredExactlyWhen | fpga_project/software/scan/src/main.c:85-106 | a frame of n words is delivered exactly when the words held modulo 2047, plus n + 3, are at most 2047, even if its payload contains header words; without such words the receiver is between frames again either way |
| FrameIngest.TailIsNotTheFrame | fpga_project/software/scan/src/fpga2nios_protocol.c:76-118 | what is left of a frame that did not fit is never parsed as that frame, whatever headers its payload holds and whatever is read past the end of the queue |
| FrameIngest.StreamDelivered | fpga_project/software/scan/src/main.c:85-106 | every frame of a stream of fitting scans and status frames with junk between them is delivered, in order |
| FrameIngest.StreamInBurstsDelivered | fpga_project/software/scan/src/main.c:85-106 | the same for the stream cut into bursts in any way, once the passes have emptied the FIFO |
| FrameIngest.DeframeScan | fpga_project/software/scan/src/fpga2nios_protocol.c:76-118 | parsing a queue of junk and a frame yields the frame and empties the queue |
| FrameIngest.DeframeReport | fpga_project/software/scan/src/fpga2nios_protocol.c:136-179 | parsing a queue of junk and a status frame yields its six words in place, whatever its length word says, and empties the queue |
| FrameIngest.DeframeOthers | fpga_project/software/scan/src/fpga2nios_protocol.c:76-120 | any other command takes its header and length word and leaves the rest in the queue; a scan that claims more than 811 words overruns the buffers |
| FrameIngest.ReportDelivered | fpga_project/software/scan/src/main.c:85-106 | a status frame after junk is delivered through the ingest loop, all six words in place, if it fits behind what the queue holds |
| FrameIngest.DeframeNothing | fpga_project/software/scan/src/fpga2nios_protocol.c:76-88 | parsing without a header takes the last word for the command, and leaves a queue that counts as full |
| ScanText.EntriesSpell | fpga_project/software/scan/src/fpga2nios_protocol.c:27-40 | hex2ascii packs four digit characters that spell the low half of its argument |
| ScanText.TextReadsBack | fpga_project/software/scan/src/fpga2nios_protocol.c:92-115 | the text of a scan reads back as the low 16 bits of every word and the low 8 bits of its high half |
| ScanText.TextZeroFree | fpga_project/software/scan/src/fpga2nios_protocol.c:97-113 | the text contains no zero byte |
| FrameReceiver.NextHeader | fpga_project/software/scan/src/fpga2nios_protocol.c:76-84 | the header loop |
| FrameReceiver.ReadScan | fpga_project/software/scan/src/fpga2nios_protocol.c:90-115 | the loop over the payload fills both text buffers with the text of the words popped |
| FrameReceiver.PutDistance | fpga_project/software/scan/src/fpga2nios_protocol.c:97-107 | the five bytes of one distance, unpacked from the packed word |
| FrameReceiver.PutGray | fpga_project/software/scan/src/fpga2nios_protocol.c:109-114 | the three bytes of one brightness |
| FrameReceiver.ReadStatus | fpga_project/software/scan/src/fpga2nios_protocol.c:141-168 | the six words of a status frame, in order |
| FrameReceiver.StreamSent | fpga_project/software/scan/src/main.c:85-152 | end to end: a stream of scans and status frames in any bursts makes the loop judge the warnings by exactly the status frames and send, in order, for a scan with a good trailer segments that read back to its measurements and sixteen bytes that show its three region bits, for one with a bad trailer nothing, and for a status frame the four flags if any is set |
| FrameReceiver.LaserAlarmReported | fpga_project/software/scan/src/fpga2nios_protocol.c:136-197 | from the wire to the PC: when the last five status frames of a stream, scans between them or not, complete a block with short laser pulses, the laser flag is set and the last packet sent says so |
| FrameReceiver.RegionBitsAre | fpga_project/software/scan/src/fpga2nios_protocol.c:118-125 | alarm bit k is trailer bit 28 + k, or its complement on NPN boards, for the three regions |
| FrameReceiver.WarningPacketSays | fpga_project/software/scan/src/fpga2nios_protocol.c:180-196 | the 28 bytes of a warning packet: head, motor, laser, dust and temperature flag as little-endian words, tail |
| FrameReceiver.ScanReadable | fpga_project/software/scan/src/main.c:108-152 | what is sent for a scan of any length up to 811 words reads back as its measurements, by the number declared in it exactly when the scan has 811, and the packet behind it shows its region bits |
| MainLoop.Receiver.constructor | fpga_project/software/scan/src/main.c:81-81 | the receiver starts with an empty queue and no flag set |
| MainLoop.Receiver.IngestWords | fpga_project/software/scan/src/main.c:85-99 | the ingest loop, up to an empty FIFO or the end of a frame |
| MainLoop.Receiver.Parse | fpga_project/software/scan/src/fpga2nios_protocol.c:66-200 | fpga2nios_parse: the frame found, its text or its effect on the warnings, and the queue left behind |
| MainLoop.Receiver.ParseScan | fpga_project/software/scan/src/fpga2nios_protocol.c:88-135 | pos_finish says whether the trailer was good; if so the buffers hold the text and the region bits are set, inverted on NPN boards |
| MainLoop.Receiver.ParseStatus | fpga_project/software/scan/src/fpga2nios_protocol.c:136-197 | a status frame updates the warnings and sends the warning packet while any flag is set |
| MainLoop.Receiver.SendWarning | fpga_project/software/scan/src/fpga2nios_protocol.c:180-196 | the packet carries the four flags |
| MainLoop.Receiver.SendFinishedScan | fpga_project/software/scan/src/main.c:108-152 | a finished scan is packed and sent, and the flag is lowered |
| MainLoop.Receiver.Pass | fpga_project/software/scan/src/main.c:82-152 | one pass of the loop: words taken, frames parsed and everything sent are what the stream model says |
| Warnings.RisesExactlyWhen | fpga_project/software/scan/src/fpga2nios_protocol.c:138-178 | over every run, a clear flag goes up exactly at a frame with a good trailer that is fifth in its block of five, when the verdict holds of the samples of all five, whether or not the first four had good trailers |
| Warnings.TemperatureRisesExactlyWhen | fpga_project/software/scan/src/fpga2nios_protocol.c:265-288 | for the temperature that is the verdict on the fifth sample alone |
| Warnings.FlagsRiseExactlyWhen | fpga_project/software/scan/src/fpga2nios_protocol.c:207-262 | for the other three, word by word: motor counts of 100000000 and more while enabled, laser pulses below 7, dust counts above the threshold, in all five frames of the block |
| Warnings.OutOfRangeMeans | fpga_project/software/scan/src/fpga2nios_protocol.c:265-288 | the temperature verdict is above 76 or below -20 degrees, bit 13 being the sign of the low byte |
| Warnings.OneHotSampleSuffices | fpga_project/software/scan/src/fpga2nios_protocol.c:265-288 | one hot sample of five sets the temperature flag, because the loop overwrites its verdict |
| Warnings.RunJustified | fpga_project/software/scan/src/fpga2nios_protocol.c:143-164 | a set laser, temperature or motor flag freezes a window that still justifies it, whatever run it started from |
| Warnings.SetFlagHasCause | fpga_project/software/scan/src/fpga2nios_protocol.c:136-179 | every set flag of all four kinds was raised at some frame with a good trailer that ended a block of five, by the verdict on that block, and has been set, with its window frozen at that block, ever since |
| Warnings.LaserAndTemperatureLatch | fpga_project/software/scan/src/fpga2nios_protocol.c:231-288 | once set, the laser and temperature flags are never cleared |
| Warnings.MotorFallsExactlyWhen | fpga_project/software/scan/src/fpga2nios_protocol.c:207-224 | a set motor flag is cleared exactly by a judging frame while the motor is not enabled |
| Warnings.MotorLatch | fpga_project/software/scan/src/fpga2nios_protocol.c:207-224 | the motor flag stays while the motor remains enabled |
| Warnings.DustFallsExactlyWhen | fpga_project/software/scan/src/fpga2nios_protocol.c:250-262 | a set dust flag is cleared exactly by a judging frame while some frozen sample is not above the threshold |
| Warnings.DustLatch | fpga_project/software/scan/src/fpga2nios_protocol.c:250-262 | the dust flag stays while the threshold is not raised to any frozen sample |
| WarningMonitor.Monitor.constructor | fpga_project/software/scan/src/fpga2nios_protocol.c:16-21 | no flag set and no sample yet |
| WarningMonitor.Monitor.ProcessMotor | fpga_project/software/scan/src/fpga2nios_protocol.c:207-224 | the motor flag becomes the verdict on its window |
| WarningMonitor.Monitor.ProcessLd | fpga_project/software/scan/src/fpga2nios_protocol.c:231-243 | the laser flag becomes the verdict on its window |
| WarningMonitor.Monitor.ProcessDust | fpga_project/software/scan/src/fpga2nios_protocol.c:250-262 | the dust flag becomes the verdict on its window |
| WarningMonitor.Monitor.ProcessTemperature | fpga_project/software/scan/src/fpga2nios_protocol.c:265-288 | the loop leaves the verdict on the last sample |
| WarningMonitor.Monitor.OnStatus | fpga_project/software/scan/src/fpga2nios_protocol.c:136-179 | a status frame on the sample arrays is one step of the warning model |
| WarningMonitor.Monitor.OnMotorEnable | fpga_project/software/scan/src/pc2dev.c:177-183 | setting the motor enable changes nothing else |
| WarningMonitor.Monitor.OnDustThreshold | fpga_project/software/scan/src/pc2dev.c:145-147 | setting the dust threshold changes nothing else |
| Telegram.TelegramFits | fpga_project/software/scan/src/sick_protocol.c:179-202 | a telegram has 163 bytes around its texts and, with full text buffers, leaves room in the 8448-byte buffer |
| Telegram.TelegramZeroFree | fpga_project/software/scan/src/sick_protocol.c:180-202 | a telegram of zero-free texts has no zero byte, so that strlen is its length |
| TelegramReader.TelegramReadsBack | fpga_project/software/scan/src/sick_protocol.c:175-203 | a reader that cuts the telegram at its spaces and knows how many measurements there are gets both channels back, in order, for every scan |
| TelegramReader.DeclaredReadsBackExactlyWhen | fpga_project/software/scan/src/sick_protocol.c:175-203 | every telegram declares 0x32B measurements, so a reader that believes the telegram gets the scan back exactly when the scan has 811 words, and nothing otherwise |
| TelegramReader.TelegramEnds | fpga_project/software/scan/src/sick_protocol.c:175-203 | a telegram begins with 0x02 and ends with 0x03 |
| Telegram.SegmentsAreSlices | fpga_project/software/scan/src/main.c:114-152 | the segments are consecutive slices of at most 1460 bytes, all but the last full, that make up the telegram |
| ScanSender.PackedTelegramSeen | fpga_project/software/scan/src/main.c:117-117 | what the packed buffer holds is, to strlen and the loop, exactly the telegram |
| ScanSender.ScanSends | fpga_project/software/scan/src/main.c:114-152 | for every scan: length 163 + 8n, segments that put the telegram together again, and the region status packet always, because no scan's telegram is a whole number of segments |
| ScanSender.Sender.constructor | fpga_project/software/scan/src/pc2dev.c:15-15 | the send buffer |
| ScanSender.Sender.PackTelegram | fpga_project/software/scan/src/sick_protocol.c:175-203 | the buffer holds the telegram, zeros behind it |
| ScanSender.Sender.Strlen | fpga_project/software/scan/src/main.c:117-117 | the length of the text in the buffer |
| ScanSender.Sender.SendScan | fpga_project/software/scan/src/main.c:112-152 | the loop ends having given both sockets the segments, and the region status behind a short last one |
| SpiTransfer.Conservation | fpga_project/software/scan_bsp/drivers/src/altera_avalon_spi.c:57-118 | for any device and any ready timing: one credit or one word in flight, words out and back in order, and never the branch that sets the credits to -1024 |
| SpiTransfer.DoneExactlyWhen | fpga_project/software/scan_bsp/drivers/src/altera_avalon_spi.c:79-118 | the transaction is over exactly when twice as many polls have found something as there are words to move; then exactly the write data and the zeros have gone out and the replies behind the write data have been stored |
| SpiTransfer.NothingToMoveHangs | fpga_project/software/scan_bsp/drivers/src/altera_avalon_spi.c:89-102 | with nothing to write or read the loop never ends: the -1024 branch is reached and nothing leads out of it |
| SpiMaster.Command | fpga_project/software/scan_bsp/drivers/src/altera_avalon_spi.c:41-134 | once finished, the device has seen the write data and the zeros, the buffer holds its last replies, and the select is released unless merge keeps it or toggle never set it |
| SpiMaster.Transfer | fpga_project/software/scan_bsp/drivers/src/altera_avalon_spi.c:78-118 | the loop over the registers is the transfer model, for every sequence of status reads |
| SpiMaster.Round | fpga_project/software/scan_bsp/drivers/src/altera_avalon_spi.c:84-116 | one status read and what it leads to |
| EpcsChip.TransferIsCommand | fpga_project/software/scan_bsp/drivers/src/altera_avalon_spi.c:41-134 | under every timing the credit loop arrives at the chip's transaction |
| EpcsChip.AddressRoundTrip | fpga_project/software/scan_bsp/drivers/src/epcs_commands.c:70-87 | the chip decodes the driver's address bytes to the offset, as far as the address width goes |
| EpcsChip.ReadStreams | fpga_project/software/scan_bsp/drivers/src/epcs_commands.c:137-145 | a read command shifts out the memory from the offset on |
| EpcsProtocol.EraseMeans | fpga_project/software/scan_bsp/drivers/src/epcs_commands.c:65-108 | an erase is one frame of its own behind a write enable, fills its sector with ones and leaves the chip settled |
| EpcsProtocol.WriteMeans | fpga_project/software/scan_bsp/drivers/src/epcs_commands.c:190-254 | a write is one frame, command and data joined by the merge flag, behind a write enable |
| EpcsProtocol.ReadMeans | fpga_project/software/scan_bsp/drivers/src/epcs_commands.c:110-153 | a read returns the memory from the offset on and changes nothing |
| EpcsProtocol.RunsKeepProtocol | fpga_project/software/scan_bsp/drivers/src/epcs_commands.c:65-254 | after any run of calls the chip is idle, deselected and in 3-byte mode, and every program, erase and mode change so far was a frame of its own directly behind a write enable |
| EpcsWire.CallsOnWire | fpga_project/software/scan_bsp/drivers/src/epcs_commands.c:65-254 | the three calls byte by byte on the wire, in both address modes: erase 0xd8, program 0x02 with address and data in one frame, read 0x03, with their write enables, mode changes and status polls |
| EpcsWire.ProgrammedBits | fpga_project/software/scan_bsp/drivers/src/epcs_commands.c:189-254 | programming a byte leaves exactly the bits set that were set and are set in the data |
| EpcsFlash.PageWriteMeans | fpga_project/software/scan_bsp/drivers/src/epcs_commands.c:189-254 | a write that stays in its page clears exactly the bits the data clear |
| EpcsFlash.WriteBlockMeans | fpga_project/software/scan_bsp/drivers/inc/altera_avalon_epcs_flash_controller.h:151-153 | (defined at lines 457-488 of the controller's source) splitting at page starts makes a block write of any offset and length do the same for its whole range |
| EpcsFlash.WriteThenRead | fpga_project/software/scan_bsp/drivers/inc/altera_avalon_epcs_flash_controller.h:144-153 | (lines 457-518) writing a blank range and reading it returns the data |
| EpcsFlash.CompareMeans | fpga_project/software/scan_bsp/drivers/inc/altera_avalon_epcs_flash_controller.h:130-142 | (lines 238-289) the comparison in 32-byte pieces tells whether the flash holds the data, and changes nothing |
| EpcsFlash.FlashWriteMeans | fpga_project/software/scan_bsp/drivers/inc/altera_avalon_epcs_flash_controller.h:130-142 | (lines 304-370) for every offset and all data: a whole write stores all that fits over any previous contents; sectors whose part already matched keep all their bytes, in the others the bytes outside the range are erased; a write that begins past the end or has no data leaves the chip as it was, and no case is an error |
| EpcsFlash.FlashWriteThenRead | fpga_project/software/scan_bsp/drivers/inc/altera_avalon_epcs_flash_controller.h:130-145 | (lines 304-370) reading back a write that fits returns it, whatever the flash held before |
| EpcsFlash.ReadsBackExactlyWhen | fpga_project/software/scan_bsp/drivers/inc/altera_avalon_epcs_flash_controller.h:130-145 | (lines 304-370) for every offset inside the device and every length, all data of that length read back after a whole write exactly when the range lies inside the device |
| EpcsFlash.TailIsLost | fpga_project/software/scan_bsp/drivers/inc/altera_avalon_epcs_flash_controller.h:130-145 | (lines 304-370) for every range that leaves the device, some data do not read back |
| EpcsFlash.PastTheEndWitness | fpga_project/software/scan_bsp/drivers/inc/altera_avalon_epcs_flash_controller.h:130-145 | (lines 304-370) two bytes written to the last place of a blank device of one sector read back differently |
| EpcsDriver.Epcs.constructor | fpga_project/software/scan_bsp/drivers/inc/altera_avalon_epcs_flash_controller.h:68-77 | the driver over a chip, with its address width |
| EpcsDriver.Epcs.ReadStatusRegister | fpga_project/software/scan_bsp/drivers/src/epcs_commands.c:35-50 | bit 0 of the status says whether the chip is busy |
| EpcsDriver.Epcs.AwaitWipReleased | fpga_project/software/scan_bsp/drivers/src/epcs_commands.c:57-63 | the polling loop ends with the chip idle |
| EpcsDriver.Epcs.EraseSectorAt | fpga_project/software/scan_bsp/drivers/src/epcs_commands.c:65-108 | the ordered calls of a sector erase |
| EpcsDriver.Epcs.WriteBufferAt | fpga_project/software/scan_bsp/drivers/src/epcs_commands.c:190-254 | the ordered calls of a page write |
| EpcsDriver.Epcs.ReadBufferAt | fpga_project/software/scan_bsp/drivers/src/epcs_commands.c:110-153 | the ordered calls of a read |
| EpcsDriver.Epcs.TestAddress | fpga_project/software/scan_bsp/drivers/inc/altera_avalon_epcs_flash_controller.h:144-153 | (lines 404-424) offsets outside the device are refused with EIO |
| EpcsDriver.Epcs.EraseBlock | fpga_project/software/scan_bsp/drivers/inc/altera_avalon_epcs_flash_controller.h:149-149 | (lines 432-447) erase, or EIO with nothing done |
| EpcsDriver.Epcs.WriteBlockAt | fpga_project/software/scan_bsp/drivers/inc/altera_avalon_epcs_flash_controller.h:151-153 | (lines 457-488) the page loop, or EIO with nothing done |
| EpcsDriver.Epcs.ReadFlash | fpga_project/software/scan_bsp/drivers/inc/altera_avalon_epcs_flash_controller.h:144-145 | (lines 495-518) read, or EIO with nothing done |
| EpcsDriver.Epcs.CompareAt | fpga_project/software/scan_bsp/drivers/inc/altera_avalon_epcs_flash_controller.h:130-142 | (lines 238-289) the comparison loop |
| EpcsDriver.Epcs.WriteFlash | fpga_project/software/scan_bsp/drivers/inc/altera_avalon_epcs_flash_controller.h:130-142 | (lines 304-370) the sector loop |
| TimeOfDay.SetThenGetExactlyWhen | fpga_project/software/scan_bsp/HAL/src/alt_settod.c:72-84 | for every tick rate, a get right behind a set returns the time set, for every time, exactly when the high word of the tick product at the set is a multiple of 15625 |
| TimeOfDay.TickRoundTripExactlyWhen | fpga_project/software/scan_bsp/HAL/src/alt_gettod.c:89-112 | when the rate divides a million, a get k ticks after a set of t returns exactly t plus k tick periods, for every t and k for which neither the second count sampled nor the one returned leaves 31 bits, exactly when the lost high word of the tick product at the set is a multiple of 15625 |
| TimeOfDay.ExactGetExactlyWhen | fpga_project/software/scan_bsp/HAL/src/alt_gettod.c:89-112 | where the result fits, the get is exact exactly when the sampled second count fits as well; where it does not, it reads as the least one and the clamp returns time zero |
| TimeOfDay.LastSecondWitness | fpga_project/software/scan_bsp/HAL/src/alt_gettod.c:89-112 | it happens: set 999 ticks after the start to the last second there is, the clock reads zero one tick later |
| TimeOfDay.SampleIsExact | fpga_project/software/scan_bsp/HAL/src/alt_gettod.c:91-107 | the sample the loops start from is the exact moment, so that the clamp to zero is not taken |
| TimeOfDay.AfterMeans | fpga_project/software/scan_bsp/HAL/src/alt_gettod.c:89-92 | k ticks at a rate that divides a million last k divided by the rate seconds |
| TimeOfDay.MomentMeans | fpga_project/software/scan_bsp/HAL/src/alt_gettod.c:94-112 | normalising keeps the moment and brings the microseconds into range, but gives time zero for one before zero |
| TimeOfDay.LossWitness | fpga_project/software/scan_bsp/HAL/src/alt_settod.c:83-84 | a thousand ticks a second and 72 minutes are enough to lose something |
| TimeOfDay.SystemClock.constructor | fpga_project/software/scan_bsp/HAL/src/alt_gettod.c:53-54 | reset time and time zone start at zero |
| TimeOfDay.SystemClock.SetTimeOfDay | fpga_project/software/scan_bsp/HAL/src/alt_settod.c:72-96 | the reset time in 32-bit arithmetic, or ENOSYS without a clock |
| TimeOfDay.SystemClock.GetTimeOfDay | fpga_project/software/scan_bsp/HAL/src/alt_gettod.c:71-124 | for every moment that carrying does not push past the last second, the moment sampled with microseconds in range, or zero for a moment before zero; ENOTSUP without a clock |
| TimeOfDay.SystemClock.Normalise | fpga_project/software/scan_bsp/HAL/src/alt_gettod.c:93-112 | the two loops, in 32-bit longs that never overflow, normalise a sample to its moment |
| IntegerText.PrintReadsBack | fpga_project/software/scan_bsp/HAL/src/alt_log_printf.c:206-297 | for every 32-bit value and every base, signedness, padding and width the text reads back as the value |
| IntegerText.TextIsTight | fpga_project/software/scan_bsp/HAL/src/alt_log_printf.c:258-280 | the text is as long as the width or, if that is more, as sign and digits, and has no digits to spare |
| IntegerText.TextLaidOut | fpga_project/software/scan_bsp/HAL/src/alt_log_printf.c:257-297 | the whole layout: with the zero flag sign, zeros and digits, without it blanks, sign and digits; the digits are the value's, in the case asked for, without superfluous zeros |
| IntegerText.ZeroFlagMeans | fpga_project/software/scan_bsp/HAL/src/alt_log_printf.c:257-279 | with the zero flag no blank is printed and the minus comes first; without it no zero stands in front of another digit |
| IntegerText.PlaceValue | fpga_project/software/scan_bsp/HAL/src/alt_log_printf.c:247-255 | the place value counted with the digits lies between one digit less and the number itself, so it cannot overflow |
| IntegerText.FirstOfLast | fpga_project/software/scan_bsp/HAL/src/alt_log_printf.c:281-296 | dividing by the place value takes the first digit and leaves the others |
| LogFormat.PiecesPrint | fpga_project/software/scan_bsp/HAL/src/alt_log_printf.c:130-340 | a format put together from characters and conversions with widths that fit an int, percent signs doubled, prints exactly its pieces and uses up exactly their arguments |
| LogFormat.ConversionMeans | fpga_project/software/scan_bsp/HAL/src/alt_log_printf.c:203-320 | %d and %i print signed decimal, %u unsigned decimal, %o octal, %x and %X hexadecimal in small letters and capitals, at least as wide as asked |
| LogFormat.TextsMean | fpga_project/software/scan_bsp/HAL/src/alt_log_printf.c:322-336 | %s and %c print their argument whole behind blanks up to the width |
| LogFormat.PrecisionIgnored | fpga_project/software/scan_bsp/HAL/src/alt_log_printf.c:171-197 | a precision is read and changes nothing |
| LogFormat.OtherLettersSkip | fpga_project/software/scan_bsp/HAL/src/alt_log_printf.c:202-338 | any other letter ends the conversion, prints nothing and takes no argument |
| LogFormat.ReadWidth | fpga_project/software/scan_bsp/HAL/src/alt_log_printf.c:176-195 | a number written in decimal is read as that width exactly when it fits a signed 32-bit int, and overflows otherwise |
| LogPort.Port.RepChar | fpga_project/software/scan_bsp/HAL/src/alt_log_printf.c:106-110 | a character is repeated; a count of zero or less prints nothing |
| LogPort.Port.CountDigits | fpga_project/software/scan_bsp/HAL/src/alt_log_printf.c:247-255 | the counting loop, with the place value within 32 bits |
| LogPort.Port.SendDigits | fpga_project/software/scan_bsp/HAL/src/alt_log_printf.c:281-296 | the digit loop sends the digits most significant first |
| LogPort.Port.SendLead | fpga_project/software/scan_bsp/HAL/src/alt_log_printf.c:257-279 | padding and sign: zeros behind the sign, or blanks before it |
| LogPort.Port.PrintIntegerValue | fpga_project/software/scan_bsp/HAL/src/alt_log_printf.c:206-297 | the integer printer sends the text of the integer |
| LogPort.Port.TypeLetter | fpga_project/software/scan_bsp/HAL/src/alt_log_printf.c:202-336 | the letter that ends a conversion |
| LogPort.Port.ConversionChar | fpga_project/software/scan_bsp/HAL/src/alt_log_printf.c:170-201 | the state inside a conversion |
| LogPort.Port.FormatChar | fpga_project/software/scan_bsp/HAL/src/alt_log_printf.c:132-339 | one turn of the loop over the format |
| LogPort.Port.Printf | fpga_project/software/scan_bsp/HAL/src/alt_log_printf.c:114-341 | what is sent for a format is what the state machine prints for it, unless an argument is missing or a number in the format overflows |

## Left out

- JtagForeground.Foreground.Read: what each test of the host timeout sees is given in advance, and when no answer and no interrupt is left the host counts as gone; the once-a-second routine that counts the timeout and the close call are not modelled
- AlarmClock.AlarmSystem.Tick: callbacks that start or stop other alarms during the walk are not modelled, and the operating system hook at the end of the tick is empty
- FdTable.Table.Open: the search for the device by name and the driver's own open function are parameters
- EepromDriver.Eeprom.WritePage: a transaction whose bytes are not all acknowledged is modelled only in the acknowledge slot, where the driver then issues a stop and goes on
- RegionServer.Server.ReadFromRom: the transfer of the points to the FPGA is a one-way hardware write
- RegionServer.Server.ReplyRegion: the packet header and the checksum around the reply body are not modelled; some checksums start from an uninitialised value
- RegionServer.Server.LoadRegion: switching the scan upload off and on around the save is a hardware write
- read_sys_para: the retry loop that accepts a parameter block by four marker bytes would add an easy member
- MainLoop.Receiver.Parse: a distance frame longer than the 811 words the text buffers hold makes the real copy leave them; the model stops there and claims nothing from then on
- MainLoop.Receiver.Pass: sending to a socket always succeeds; the lamps, the watchdog, the switch inputs and the replies to the PC in the same loop are not modelled
- WarningMonitor.Monitor.OnStatus: the copies of the samples kept for the status reply to the PC are not modelled
- SpiMaster.Command: a device that counts the pulses of a toggling select is not modelled; the flash commands never ask for it
- EpcsDriver.Epcs.Transaction: transactions are taken as completed, which EpcsChip.TransferIsCommand justifies for every timing under which the credit loop ends
- EpcsDriver.Epcs.WriteFlash: one region of equal 64 KB sectors, so the nested search for the sector becomes a walk from sector to sector
- Flash identification, the signature and identifier commands and the status register write: constant tables and single transactions
- TimeOfDay.SystemClock.GetTimeOfDay: the time zone handed back unchanged is not modelled; a moment that carrying pushes past the last second of the 31-bit range is excluded, because incrementing there overflows a signed number
- LogPort.Port.Printf: nothing is claimed once a number in the format overflows a signed int or an argument is missing, and strings are the characters before their terminating zero
- The network chip and socket code: register plumbing whose buffers live in the chip
- The canned SICK replies and the command lookup: constant data and string matching
- The parameter-setting cases of the PC protocol: each is settled by reading one branch
- Delays and clock timing on the I2C bus: only the order of line changes is kept
- HAL stubs, cache flushing, exception entry and interrupt registration: assembly or unsupported-call stubs
