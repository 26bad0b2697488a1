# Board support and game hardware: a verified model

The repository is a Nios II system on an FPGA: a board support package in C (JTAG UART driver, system clock,
file descriptors, formatted output, interrupts) and a game in SystemVerilog.  This project models the parts
that keep state over unbounded runs, and proves what they keep.

| component | values and properties | code over mutable state |
|---|---|---|
| JTAG UART, interrupt driven | `Ring`, `UartMachine`, `UartInvariant`, `UartTheorems`, `UartLiveness` | `UartDriver` |
| alarms of the system clock | `AlarmTiming`, `AlarmPlan` | `AlarmList` |
| file descriptors and device locks | `FdPool` | `FdTable` |
| time of day | `TimeOfDay` | `TimeOfDay.WallClock` |
| formatted output | `Positional`, `Formats`, `FormatLetters` | `Printf` |
| interrupt masking and dispatch | `Interrupts` | `Interrupts.Controller` |
| Mario's registers | `MarioStep` | `MarioStep.MarioRegisters` |
| VGA timing | `VgaTiming` | `VgaTiming.VgaRegisters` |

`Arithmetic` holds facts about division that several modules use, `Platform` the word size and the error
numbers.  The configuration is that of `system.h`:
enhanced interrupt API, no operating system, no direct drivers, not the small UART driver.

**JTAG UART.**  Foreground `read` and `write` share two rings of 2048 bytes with the interrupt routine,
without a lock.  `UartMachine` is a step system: each foreground step touches at most one shared location (one
byte of a `memcpy` is one step), the interrupt routine may start between any two of them, and the host may
act between any two register accesses.  `UartInvariant` proves one invariant of every run; `UartTheorems`
draws the consequences: conservation and order of the bytes both ways, no stuck data, no deaf receiver, no lost
wakeup, termination of the interrupt routine, refinement of two byte queues.  `UartLiveness` bounds the steps of
a blocking write by its bytes and the times it finds the ring full, and those by a host that keeps taking bytes.  `UartDriver.JtagUart` is the
driver's code over real arrays and registers; wherever it can be interrupted it calls a method that does
anything the environment may do, and a ghost trace shows that every state it passes through is one of the step
system.

**Alarms.**  `AlarmTiming` sets the 32-bit `time` and `rollover` fields against an unbounded clock.
`AlarmPlan` says on values what a log of starts, stops and calls, a walk and many ticks do to the deadlines.
`AlarmList` is the intrusive circular list, walked by the tick while callbacks edit it, against a sequence; every
start, stop and call extends a ghost log, and the deadlines are the replay of it.  `answers` is the history of what
callbacks returned, to which only `Callback` adds.  `quiet` is any set of alarms
that the environment leaves alone.

**Descriptors.**  `FdPool` gives each call as a function on the pool and proves properties of all sequences of
calls; `FdTable` is the code over the array.

**Interrupts.**  Programs of registrations, critical sections, device activity and interrupts, nested to any
depth; a 32-bit word is the set of lines whose bits are set.

## Where the code differs from its documentation

- `alt_fd_lock` is documented to grant a lock if no other open descriptor references the device.  Its scan
  stops before `alt_max_fd`, so the descriptor at the mark is not looked at.  `FdPool.LockGrant` says exactly
  when a lock is granted and when the grant is exclusive; `FdPool.GrantNotAlwaysExclusive` is a run where it
  is not.
- `settimeofday` is documented to make an immediate `gettimeofday` return the time set.  It multiplies in 32
  bits, the get in 64; `TimeOfDay.ImmediateRoundTrip` and `TimeOfDay.SetThenGetExactly` say
  exactly when the time is right, and `TimeOfDay.RoundTripFails` is a case where it is not.
- An alarm started with 2^32 - 1 ticks fires at the next tick, unless the counter stands at its maximum:
  `AlarmTiming.FirstFiring`.  An alarm that its own callback starts again may be called a turn of the counter
  early: `AlarmTiming.LaterExactly`.
- `alt_llist_remove` is documented to make further calls harmless.  On an alarm that was never started it is not:
  `AlarmList.AlarmSystem.RemovableExactly`.
- F_SETFL on a free descriptor leaves flags on it: `FdPool.FcntlCleanExactly`, `FdPool.UntidyCall`.
- Registering an interrupt number from 2^31 on passes the test against the number of lines, because the number is
  converted to `int`: `Interrupts.RespectedExactly`.
- Enabling a line that has no handler directly, not by registering one, breaks the rule that enabled lines
  have handlers: `Interrupts.DirectEnable`, `Interrupts.NullCall`.

## Assumptions

- UART hardware: RI is raised only with RE set and data available, WI only with WE set and space; WSPACE is
  the free part of the transmit FIFO; a data word without RVALID has RAVAIL zero.
- Nobody starts an alarm that is listed or stops one that was never started, and callbacks do not stop the alarm
  saved as next.
- Descriptors passed in are in range; the device and file system lists have no entry in common; a
  driver's callbacks leave descriptors' device and flags alone.
- The first read of the pending word in the dispatcher finds a line pending: the interrupt was taken because
  one was.  With an empty word the bit search would not end.
- `errno` numbers and the values of O_APPEND and O_NONBLOCK come from C library headers that are not part of
  this model; they are constants or named bits here.

## Model

| member | source | states |
|---|---|---|
| UartTheorems.TxConservation | software/usb_kb_bsp/drivers/src/altera_avalon_jtag_uart_write.c:100-139 | Whatever the interleaving of writer, interrupt routine, timeout and host: all bytes `write` has accepted, in order, are what the host has taken, then the hardware FIFO, then the ring; the FIFO never holds more than it has room for |
| UartTheorems.RxConservation | software/usb_kb_bsp/drivers/src/altera_avalon_jtag_uart_read.c:115-142 | Whatever the interleaving: all bytes the host has sent, in order, are those readers have been given, then the ring, then the hardware FIFO |
| UartTheorems.StoresMissLiveBytes | software/usb_kb_bsp/drivers/src/altera_avalon_jtag_uart_write.c:103-127 | However stale the writer's snapshot of `tx_out`, no byte it copies lands on a byte still to be sent; a byte the interrupt routine stores lands on none still to be read |
| UartTheorems.NoStuckData | software/usb_kb_bsp/drivers/src/altera_avalon_jtag_uart_init.c:169-194 | Bytes in the transmit ring have the transmit interrupt enabled, unless the writer that published them is still on its way to the enable |
| UartTheorems.NoDeafReceiver | software/usb_kb_bsp/drivers/src/altera_avalon_jtag_uart_init.c:156-167 | The receive interrupt is off only while the ring is full, or while a reader that made room is on its way to enabling it |
| UartTheorems.ShadowIsDevice | software/usb_kb_bsp/drivers/src/altera_avalon_jtag_uart_write.c:136-139 | Outside the two-step updates of the enables, `irq_enable` equals the device's RE and WE bits |
| UartTheorems.WriteOutcome | software/usb_kb_bsp/drivers/src/altera_avalon_jtag_uart_write.c:193-214 | The returned count is the length of the accepted prefix, or the error of the call's mode when that is empty; it stops short only when non-blocking or after seeing the host inactive, and only on a full ring |
| UartTheorems.NoLostWakeup | software/usb_kb_bsp/drivers/src/altera_avalon_jtag_uart_write.c:178-188 | A waiting writer keeps waiting exactly while the ring is full: space freed after its snapshot ends the wait at the next look |
| UartTheorems.NoLostArrival | software/usb_kb_bsp/drivers/src/altera_avalon_jtag_uart_read.c:172-178 | A waiting reader keeps waiting exactly while the ring is empty |
| UartTheorems.BlockingWriteCompletes | software/usb_kb_bsp/drivers/src/altera_avalon_jtag_uart_write.c:100-200 | From any reachable start, through any events during which `host_inactive` stays 0, a blocking write can only return its full count |
| UartTheorems.ReadOutcome | software/usb_kb_bsp/drivers/src/altera_avalon_jtag_uart_read.c:115-202 | The outer loop runs at most twice; the result is the number of bytes delivered, at least the smaller of the space and what was queued at entry, or the error of the call's mode; nothing only if non-blocking, asked for nothing or with the host seen gone |
| UartTheorems.BlockingReadReturnsData | software/usb_kb_bsp/drivers/src/altera_avalon_jtag_uart_read.c:115-202 | From any reachable start, through any events during which the host does not count as gone, a blocking read that asks for something can only return with data, and returns how much |
| UartTheorems.HostPresence | software/usb_kb_bsp/drivers/src/altera_avalon_jtag_uart_init.c:87-96 | Over all runs of ticks and requests `host_inactive` stays within INT_MAX - 2 and the timeout within [2, INT_MAX]; INT_MAX means no clock for ever; a timeout of INT_MAX or INT_MAX - 1 never expires |
| UartTheorems.SilenceIsCounted | software/usb_kb_bsp/drivers/src/altera_avalon_jtag_uart_init.c:203-225 | After a poll of the host and n alarms without another, `host_inactive` is n - 1, or INT_MAX - 2 if that is less, and the activity bit is clear, whatever else happens |
| UartTheorems.IsrStepDecreases | software/usb_kb_bsp/drivers/src/altera_avalon_jtag_uart_init.c:117-196 | Each step of the interrupt routine lowers a measure of free receive slots, queued transmit bytes and enabled interrupts |
| UartTheorems.IsrTerminates | software/usb_kb_bsp/drivers/src/altera_avalon_jtag_uart_init.c:117-197 | Against a host that keeps sending and draining, one activation of the interrupt routine ends within a fixed number of steps |
| UartTheorems.OthersWait | software/usb_kb_bsp/drivers/src/altera_avalon_jtag_uart_init.c:105-111 | While the interrupt routine runs, nothing else can give it more to do |
| UartLiveness.WriteReturns | software/usb_kb_bsp/drivers/src/altera_avalon_jtag_uart_write.c:100-200 | A blocking write returns: with the host active, and the ring found full at most p times in one wait, the writer takes at most 12 + 2p steps a byte and 8 + 2p besides, whatever else happens |
| UartLiveness.ServedWriteReturns | software/usb_kb_bsp/drivers/src/altera_avalon_jtag_uart_write.c:100-200 | Against a host that keeps taking bytes, so that between two looks of one wait the interrupt routine, told of room in the FIFO, completes an activation, the writer finds the ring full at most once in a wait and takes at most 14 steps a byte and 10 besides |
| UartLiveness.OneLook | software/usb_kb_bsp/drivers/src/altera_avalon_jtag_uart_write.c:178-188 | Served so, the second look of a wait never finds the ring full |
| UartLiveness.CallCosts | software/usb_kb_bsp/drivers/src/altera_avalon_jtag_uart_write.c:100-191 | At every point of such a call the steps taken and a bound on those to come stay within the bound at its start |
| UartLiveness.EventCosts | software/usb_kb_bsp/drivers/src/altera_avalon_jtag_uart_write.c:100-191 | Each step of the writer lowers that bound, a look at a full ring included; nothing else raises it |
| UartLiveness.ServiceMakesRoom | software/usb_kb_bsp/drivers/src/altera_avalon_jtag_uart_init.c:117-197 | If a writer is waiting, the host has taken a byte and WI is raised, one activation of the interrupt routine leaves room in the ring, so looking again after it ends the wait |
| UartTheorems.RefinesTwoQueues | software/usb_kb_bsp/drivers/src/altera_avalon_jtag_uart_write.c:100-139 | Every event of the driver is the one step of two bounded byte queues that its bytes say, or none: the run of the caller's bytes published, the byte transmitted, the byte received, the run put into the caller's buffer |
| UartTheorems.QueuesKeepOrder | software/usb_kb_bsp/drivers/src/altera_avalon_jtag_uart_write.c:100-139 | The queues themselves: what entered each is what left it and what it holds, in order |
| UartTheorems.QueuesInOrder | software/usb_kb_bsp/drivers/src/altera_avalon_jtag_uart_init.c:117-197 | So it is in every reachable state of the driver |
| UartTheorems.TraceIsReached | software/usb_kb_bsp/drivers/src/altera_avalon_jtag_uart_init.c:66-100 | A listed sequence of states that follows the events is the run from start-up, and satisfies the invariant |
| UartInvariant.BootInv | software/usb_kb_bsp/drivers/src/altera_avalon_jtag_uart_init.c:66-100 | The state after initialisation satisfies the invariant, with or without a system clock |
| UartInvariant.WriterKeeps | software/usb_kb_bsp/drivers/src/altera_avalon_jtag_uart_write.c:100-190 | Every step of `write`, including each byte of its copy, keeps the invariant |
| UartInvariant.ReaderKeeps | software/usb_kb_bsp/drivers/src/altera_avalon_jtag_uart_read.c:115-195 | Every step of `read` keeps the invariant |
| UartInvariant.IsrKeeps | software/usb_kb_bsp/drivers/src/altera_avalon_jtag_uart_init.c:117-196 | Every step of the interrupt routine keeps the invariant |
| UartInvariant.OthersKeep | software/usb_kb_bsp/drivers/src/altera_avalon_jtag_uart_init.c:203-225 | The host, the timeout, timeout requests and the start of calls keep the invariant |
| UartInvariant.RunKeeps | software/usb_kb_bsp/drivers/src/altera_avalon_jtag_uart_init.c:117-197 | The invariant holds after every sequence of events |
| UartInvariant.WCopyPreservesLive | software/usb_kb_bsp/drivers/src/altera_avalon_jtag_uart_write.c:122 | A byte copied into the run chosen from a stale snapshot leaves the live bytes alone |
| UartInvariant.WPublishConserves | software/usb_kb_bsp/drivers/src/altera_avalon_jtag_uart_write.c:126 | Advancing `tx_in` appends exactly the bytes copied to the live bytes |
| UartInvariant.RReleaseConserves | software/usb_kb_bsp/drivers/src/altera_avalon_jtag_uart_read.c:136-140 | Advancing `rx_out` removes exactly the bytes that were copied to the caller |
| UartInvariant.PopAppends | software/usb_kb_bsp/drivers/src/altera_avalon_jtag_uart_init.c:149-150 | A received byte is appended to the live bytes |
| Ring.WriteRoomIsSafe | software/usb_kb_bsp/drivers/src/altera_avalon_jtag_uart_write.c:109-117 | The run length `write` computes is 0 exactly when the ring is full, and claims no slot in use |
| Ring.ReadRoomIsSafe | software/usb_kb_bsp/drivers/src/altera_avalon_jtag_uart_read.c:125-131 | The run length `read` computes is 0 exactly when the ring is empty, and claims no unpublished slot |
| Ring.UsedIsInjective | software/usb_kb_bsp/drivers/src/altera_avalon_jtag_uart_write.c:183 | `tx_out` unchanged means the number of bytes in the ring is unchanged |
| Ring.StoreOutside | software/usb_kb_bsp/drivers/src/altera_avalon_jtag_uart_write.c:122 | A store to a free slot leaves the live bytes alone |
| Ring.Publish | software/usb_kb_bsp/drivers/src/altera_avalon_jtag_uart_write.c:126 | Moving the producer's index over free slots appends what they hold, also when the index wraps |
| Ring.Consume | software/usb_kb_bsp/drivers/src/altera_avalon_jtag_uart_read.c:140 | Moving the consumer's index drops the oldest bytes, which are those found there, also when the index wraps |
| UartDriver.JtagUart.constructor | software/usb_kb_bsp/drivers/src/altera_avalon_jtag_uart_init.c:66-100 | Initialisation leaves an idle driver; without a clock the timeout is INT_MAX |
| UartDriver.JtagUart.Isr | software/usb_kb_bsp/drivers/src/altera_avalon_jtag_uart_init.c:105-197 | The routine over the real buffers and registers terminates, follows the step system at every access, and touches nothing foreground code owns |
| UartDriver.JtagUart.Receive | software/usb_kb_bsp/drivers/src/altera_avalon_jtag_uart_init.c:125-167 | The receive half of a round ends, with the receive interrupt masked if data is left |
| UartDriver.JtagUart.ReceiveLoop | software/usb_kb_bsp/drivers/src/altera_avalon_jtag_uart_init.c:132-154 | The receive loop ends; RAVAIL is left set exactly when the routine must mask the receive interrupt |
| UartDriver.JtagUart.ReceiveOne | software/usb_kb_bsp/drivers/src/altera_avalon_jtag_uart_init.c:132-154 | One pass of it stops at a full ring or an empty FIFO, or takes one byte |
| UartDriver.JtagUart.TransmitLoop | software/usb_kb_bsp/drivers/src/altera_avalon_jtag_uart_init.c:174-184 | The transmit loop stops with its space used up or the ring empty |
| UartDriver.JtagUart.Transmit | software/usb_kb_bsp/drivers/src/altera_avalon_jtag_uart_init.c:169-195 | The transmit half of a round never writes more bytes than the space it read |
| UartDriver.JtagUart.ReadControl | software/usb_kb_bsp/drivers/src/altera_avalon_jtag_uart_init.c:119-123 | RI needs RE and data, WI needs WE and space, and WSPACE is the free part of the FIFO |
| UartDriver.JtagUart.TimeoutAlarm | software/usb_kb_bsp/drivers/src/altera_avalon_jtag_uart_init.c:203-225 | Activity resets `host_inactive` and is cleared, by writing the enables back and nothing else; a silent second counts one more, up to INT_MAX - 2 |
| UartDriver.JtagUart.SetHostTimeout | software/usb_kb_bsp/drivers/src/altera_avalon_jtag_uart_ioctl.c:60-68 | A timeout of INT_MAX is refused and never changed; a timeout out of range becomes INT_MAX - 1 |
| UartDriver.JtagUart.IsConnected | software/usb_kb_bsp/drivers/src/altera_avalon_jtag_uart_ioctl.c:70-77 | The host counts as connected while `host_inactive` is below the timeout; with timeout INT_MAX - 1 always |
| UartDriver.JtagUart.FreeRun | software/usb_kb_bsp/drivers/src/altera_avalon_jtag_uart_write.c:109-120 | The length to copy stays within the buffer and its free slots and the count, and is 0 exactly when the ring is full |
| UartDriver.JtagUart.Queued | software/usb_kb_bsp/drivers/src/altera_avalon_jtag_uart_read.c:125-134 | The length to copy stays within the buffer and its filled slots and the space, and is 0 exactly when the ring is empty |
| UartDriver.JtagUart.Fill | software/usb_kb_bsp/drivers/src/altera_avalon_jtag_uart_write.c:103-127 | The copying loop publishes a prefix, stopping short only at a full ring |
| UartDriver.JtagUart.Kick | software/usb_kb_bsp/drivers/src/altera_avalon_jtag_uart_write.c:136-139 | After the critical section the device has WE set and `irq_enable` agrees with it |
| UartDriver.JtagUart.AwaitRoom | software/usb_kb_bsp/drivers/src/altera_avalon_jtag_uart_write.c:178-184 | The spin ends when room appears or the host is gone |
| UartDriver.JtagUart.WriteAll | software/usb_kb_bsp/drivers/src/altera_avalon_jtag_uart_write.c:100-191 | The outer loop of `write` ends with everything accepted, or for one of its reasons to stop, or is still waiting |
| UartDriver.JtagUart.Write | software/usb_kb_bsp/drivers/src/altera_avalon_jtag_uart_write.c:83-215 | A prefix of the caller's bytes is appended to what was accepted, and its length returned; less than the count only when non-blocking or with the host inactive; nothing is an error |
| UartDriver.JtagUart.Drain | software/usb_kb_bsp/drivers/src/altera_avalon_jtag_uart_read.c:119-142 | The inner loop of `read` copies only published bytes |
| UartDriver.JtagUart.ReadLoop | software/usb_kb_bsp/drivers/src/altera_avalon_jtag_uart_read.c:115-179 | The outer loop of `read`: two passes at most |
| UartDriver.JtagUart.Arm | software/usb_kb_bsp/drivers/src/altera_avalon_jtag_uart_read.c:190-195 | After the critical section the device has RE set and `irq_enable` agrees with it |
| UartDriver.JtagUart.Read | software/usb_kb_bsp/drivers/src/altera_avalon_jtag_uart_read.c:100-203 | The start of the caller's buffer holds the bytes returned, at least what was asked for or what was queued at entry; nothing is an error, and in blocking mode only with nothing asked for, the host seen gone or the call still waiting |
| UartDriver.JtagUart.Close | software/usb_kb_bsp/drivers/src/altera_avalon_jtag_uart_init.c:241-254 | Closing returns success only with the ring drained or the host gone; if the host is present everything accepted has reached the hardware; it goes on waiting only in blocking mode, with the ring not empty and the host present |
| AlarmTiming.StartStands | software/usb_kb_bsp/HAL/src/alt_alarm_start.c:80-96 | At every counter value: with nticks <= 2^32 - 2, started at true tick N, the fields stand for the deadline N + nticks + 1; with 2^32 - 1 for the next tick, or for N + 2^32 if the counter is at its maximum |
| AlarmTiming.TickExact | software/usb_kb_bsp/HAL/src/alt_tick.c:104-115 | A tick finds the alarm expired exactly at its true deadline, across the wrap of the counter, and otherwise leaves it set for it |
| AlarmTiming.RearmStands | software/usb_kb_bsp/HAL/src/alt_tick.c:127-137 | After a callback answers p > 0 the alarm is set for exactly p ticks later, or for one less if it was late |
| AlarmTiming.LaterStands | software/usb_kb_bsp/HAL/src/alt_tick.c:127-137 | The same for an alarm its own callback has started again, for every delay and every answer |
| AlarmTiming.LaterExactly | software/usb_kb_bsp/HAL/src/alt_tick.c:127-137 | It is then called when it was meant to be if and only if that is not too far ahead for the counter and the flag; always, if delay and answer together stay below 2^32 |
| AlarmTiming.FiringsAreScheduled | software/usb_kb_bsp/HAL/src/alt_tick.c:96-141 | For as long as it runs every alarm, late or not, is called exactly at its deadlines, whatever periods it answers |
| AlarmTiming.AlarmExactness | software/usb_kb_bsp/HAL/src/alt_alarm_start.c:64-112 | The whole life of an alarm started with nticks <= 2^32 - 2: first at N + nticks + 1, then each answered period later, never early, never skipped |
| AlarmTiming.AsMeant | software/usb_kb_bsp/HAL/src/alt_tick.c:96-141 | An alarm that is not late is called first when asked for and then each answered period later |
| AlarmTiming.BackOnTime | software/usb_kb_bsp/HAL/src/alt_tick.c:127-137 | A late alarm makes it up with its first answer over 1, and is as meant from then on |
| AlarmTiming.FirstFiring | software/usb_kb_bsp/HAL/src/alt_alarm_start.c:82-96 | Over all 32-bit delays: the first call comes when asked for, if and only if the delay is not 2^32 - 1 or the counter stands at its maximum; otherwise it comes at the next tick |
| AlarmList.AlarmSystem.constructor | software/usb_kb_bsp/HAL/src/alt_tick.c:44-58 | At start-up the list is empty and the structures of the program hold anything |
| AlarmList.AlarmSystem.Insert | software/usb_kb_bsp/HAL/inc/sys/alt_llist.h:90-98 | Insertion puts the alarm, whatever its own pointers held, at the front of the sequence the circular list stands for |
| AlarmList.AlarmSystem.Unlink | software/usb_kb_bsp/HAL/inc/sys/alt_llist.h:105-117 | Removal takes an alarm that was started out of the sequence and leaves it pointing to itself; a second removal changes nothing |
| AlarmList.AlarmSystem.RemovableExactly | software/usb_kb_bsp/HAL/inc/sys/alt_llist.h:83-108 | Among alarms that were started and static ones that were not, removal follows no null pointer exactly for those that were started |
| AlarmList.AlarmSystem.Start | software/usb_kb_bsp/HAL/src/alt_alarm_start.c:64-112 | Results for no clock and no alarm; otherwise any alarm that is not listed, initialised or not, is at the front of the list and set for its deadline, which is logged, and no other deadline changes |
| AlarmList.AlarmSystem.Stop | software/usb_kb_bsp/HAL/src/alt_tick.c:66-73 | An alarm that was started at some time is off the list, whether or not it was on it, which is logged, and no other deadline changes |
| AlarmList.AlarmSystem.Behave | software/usb_kb_bsp/HAL/src/alt_tick.c:117 | What a callback may do before it returns: any number of permitted starts and stops, each logged; the walk stays well-formed |
| AlarmList.AlarmSystem.Callback | software/usb_kb_bsp/HAL/src/alt_tick.c:117 | Besides that it returns a 32-bit number, and the call with that number is appended to `answers`, which nothing else extends |
| AlarmList.AlarmSystem.Rearm | software/usb_kb_bsp/HAL/src/alt_tick.c:127-137 | The answer, logged, sets the alarm for that many ticks from now, or that many after the deadline its own callback has just set; the fields stand for it |
| AlarmList.AlarmSystem.Expire | software/usb_kb_bsp/HAL/src/alt_tick.c:117-138 | The log gets what the callback did and then the call with the answer it returned, the same that `answers` got; the answer 0 takes the alarm off the list, any other sets it |
| AlarmList.AlarmSystem.Visit | software/usb_kb_bsp/HAL/src/alt_tick.c:102-140 | The callback is called exactly when the tick is the alarm's true deadline; without a call nothing changes and nothing is logged |
| AlarmList.AlarmSystem.Advance | software/usb_kb_bsp/HAL/src/alt_tick.c:100-141 | Going on at the successor saved before the callback continues with the remaining alarms, less those stopped |
| AlarmList.AlarmSystem.Walk | software/usb_kb_bsp/HAL/src/alt_tick.c:90-141 | The walk over the changing list ends, as a sequence of such steps from the alarms it started with to none |
| AlarmList.AlarmSystem.Tick | software/usb_kb_bsp/HAL/src/alt_tick.c:87-148 | Every alarm listed when the tick starts is visited exactly once, in order, except those the log says a callback stopped first; those called are exactly those visited that are due, in list order; the new deadlines are what the logged starts, stops and calls make of the old ones, and no quiet alarm is started or stopped; the list is well-formed and every alarm on time afterwards; the calls in the log are those in `answers`, with what the callbacks returned |
| AlarmList.AlarmSystem.Between | software/usb_kb_bsp/HAL/src/alt_tick.c:66-73 | What the program may do between ticks, all of it logged: start and stop alarms that are not quiet |
| AlarmList.AlarmSystem.RunTicks | software/usb_kb_bsp/HAL/src/alt_tick.c:87-148 | Over any number of ticks, with any callbacks and any starts and stops of other alarms, the logged calls of a quiet alarm come exactly on the schedule of its own answers, never early, never skipped; the calls logged are those the callbacks answered, in order, with the numbers they returned |
| AlarmPlan.WalkIsOver | software/usb_kb_bsp/HAL/src/alt_tick.c:100-141 | A finished walk has visited all but those stopped, and called exactly those of them that were due |
| AlarmPlan.OneStep | software/usb_kb_bsp/HAL/src/alt_tick.c:100-141 | One iteration keeps the account of the alarms visited, skipped and called |
| AlarmPlan.OneVisited | software/usb_kb_bsp/HAL/src/alt_tick.c:100-141 | Visiting one more alarm and skipping those just stopped leaves the others in order |
| AlarmPlan.Spared | software/usb_kb_bsp/HAL/src/alt_tick.c:100-141 | An alarm that no logged event is about keeps its deadline and its place on the list |
| AlarmPlan.StoppedIsGone | software/usb_kb_bsp/HAL/src/alt_tick.c:66-73 | An alarm in the log as stopped, and not as started, is off the list |
| AlarmPlan.TickCalls | software/usb_kb_bsp/HAL/src/alt_tick.c:100-141 | In a tick a quiet alarm is called exactly once if it is due, and otherwise not |
| AlarmPlan.SlotAfter | software/usb_kb_bsp/HAL/src/alt_tick.c:117-138 | The deadline of an alarm that nobody starts or stops is what its own calls make of it |
| AlarmPlan.RegularIsScheduled | software/usb_kb_bsp/HAL/src/alt_tick.c:96-141 | Calls that each come at the deadline are exactly the schedule up to now |
| FdPool.FirstFree | software/usb_kb_bsp/HAL/src/alt_get_fd.c:77-89 | The first free descriptor, or -1 exactly when there is none |
| FdPool.OpenOutcome | software/usb_kb_bsp/HAL/src/alt_open.c:105-171 | `open` succeeds exactly when the name is known, a descriptor is free, the device is unlocked and the driver agrees; it then fills the first free descriptor and nothing else; a failing open leaves every device, and all flags but any left on a free descriptor, as they were |
| FdPool.OpenReply | software/usb_kb_bsp/HAL/src/alt_open.c:105-171 | A descriptor just opened holds device, private pointer and flags as asked for, without a lock; a failing open answers -1 with ENODEV, EMFILE, EACCES or the error of the driver, the first that applies |
| FdPool.OpenSeesLocks | software/usb_kb_bsp/HAL/src/alt_open.c:79-86 | The scan of `open` finds a lock if and only if any descriptor in the pool holds one on the device |
| FdPool.RedirectOutcome | software/usb_kb_bsp/HAL/src/alt_io_redirect.c:58-72 | A redirection moves the opened device, its private pointer and its flags onto the standard descriptor and leaves the rest of the pool as it was |
| FdPool.CloseOutcome | software/usb_kb_bsp/HAL/src/alt_close.c:64-101 | After a close the descriptor, locked or not, is free and has no flags, unless it is a standard one; no other descriptor changes; the answer is 0, or -1 with the error of the driver |
| FdPool.CloseEndsLock | software/usb_kb_bsp/HAL/src/alt_close.c:84-94 | Closing the only descriptor that locks a device, with any answer of the driver, lets the device be opened again |
| FdPool.IoctlOutcome | software/usb_kb_bsp/HAL/src/alt_ioctl.c:106-168 | An ioctl changes at most the lock of its own descriptor: on a device TIOCNXCL clears it, TIOCEXCL sets it or answers EACCES; everything else answers what the driver does and changes nothing |
| FdPool.FcntlOutcome | software/usb_kb_bsp/HAL/src/alt_fcntl.c:66-101 | F_GETFL answers the flags without the internal ones and F_SETFL answers 0; other commands answer EINVAL and negative descriptors EBADFD, without a change |
| FdPool.StepKeeps | software/usb_kb_bsp/HAL/src/alt_dev.c:118-149 | Every call keeps the pool invariant |
| FdPool.RunKeeps | software/usb_kb_bsp/HAL/src/alt_dev.c:118-149 | Every legal sequence of calls keeps it |
| FdPool.FcntlCleanExactly | software/usb_kb_bsp/HAL/src/alt_fcntl.c:82-92 | F_SETFL does not look whether the descriptor is open: a pool whose free descriptors carry no flags stays so if and only if the descriptor is open or neither flag is set |
| FdPool.TidyRun | software/usb_kb_bsp/HAL/src/alt_fcntl.c:82-92 | Through any sequence of such calls it does |
| FdPool.UntidyCall | software/usb_kb_bsp/HAL/src/alt_fcntl.c:86-92 | On a free descriptor of the initial pool it leaves a flag behind |
| FdPool.ReachablePool | software/usb_kb_bsp/HAL/src/alt_release_fd.c:44-51 | In every reachable pool: descriptors 0 to 2 are allocated, free ones are neither locked nor marked as devices and, unless F_SETFL was used on one, carry no flags at all, and from the first allocation on the mark bounds the allocated ones |
| FdPool.LockGrant | software/usb_kb_bsp/HAL/src/alt_fd_lock.c:61-69 | TIOCEXCL is granted if and only if no other descriptor strictly below the mark shares the device; the grant is exclusive if and only if the descriptor at the mark does not share it either |
| FdPool.GrantNotAlwaysExclusive | software/usb_kb_bsp/HAL/src/alt_fd_lock.c:61-69 | A run in which two descriptors share a device and one of them is granted the exclusive lock |
| FdPool.HoldsStep | software/usb_kb_bsp/HAL/src/alt_ioctl.c:127-139 | No single call other than unlocking, closing or redirecting over the holder ends an exclusive hold |
| FdPool.HoldsForever | software/usb_kb_bsp/HAL/src/alt_open.c:130-166 | Through any legal sequence of such calls no other descriptor comes to refer to the device |
| FdPool.GrantLasts | software/usb_kb_bsp/HAL/src/alt_fd_lock.c:54-75 | A grant that was exclusive stays so from then on |
| FdPool.OnlyLockSetsExcl | software/usb_kb_bsp/HAL/src/alt_fcntl.c:86-92 | The exclusive flag appears only on the descriptor of a granted TIOCEXCL; not through fcntl, open or redirection |
| FdPool.LockStep | software/usb_kb_bsp/HAL/src/alt_fd_lock.c:37-52 | A lock, exclusive or not, stays on its descriptor and device through every call that does not unlock, close or redirect over it |
| FdPool.LockShutsOut | software/usb_kb_bsp/HAL/src/alt_fd_lock.c:43-49 | From the lock until its release every `open` of the device fails, with EACCES if a descriptor is free and EMFILE if none is, whatever calls come between |
| FdPool.CloseUndoesOpen | software/usb_kb_bsp/HAL/src/alt_close.c:64-101 | Closing what a successful `open` returned gives every descriptor the device and flags it had, but for flags left on a free one |
| FdPool.UnlockUndoesLock | software/usb_kb_bsp/HAL/src/alt_fd_unlock.c:52-56 | Unlocking restores the pool a lock was granted in |
| FdPool.FlagsReadBack | software/usb_kb_bsp/HAL/src/alt_fcntl.c:84-92 | What F_SETFL sets F_GETFL reports; all other flags and descriptors stay, the lock among them |
| FdTable.Table.constructor | software/usb_kb_bsp/HAL/src/alt_dev.c:118-149 | The initial pool, mark at -1 |
| FdTable.Table.GetFd | software/usb_kb_bsp/HAL/src/alt_get_fd.c:54-101 | Allocates the first free descriptor and raises the mark, or fails without a change |
| FdTable.Table.ReleaseFd | software/usb_kb_bsp/HAL/src/alt_release_fd.c:44-51 | Frees the descriptor unless it is a standard one |
| FdTable.Table.CheckLocked | software/usb_kb_bsp/HAL/src/alt_open.c:64-92 | Marks a device's descriptor and looks for a lock up to the mark |
| FdTable.Table.Open | software/usb_kb_bsp/HAL/src/alt_open.c:105-171 | The allocation, lock check, driver call and clean-up of `open`, in their order, leave the pool whose outcome `FdPool.OpenOutcome` states |
| FdTable.Table.FdLock | software/usb_kb_bsp/HAL/src/alt_fd_lock.c:54-75 | Sets the exclusive flag, or refuses without a change |
| FdTable.Table.FdUnlock | software/usb_kb_bsp/HAL/src/alt_fd_unlock.c:52-56 | Clears the exclusive flag and nothing else |
| FdTable.Table.Ioctl | software/usb_kb_bsp/HAL/src/alt_ioctl.c:106-168 | Lock requests on devices go to the lock routines, all else to the driver; on a free descriptor the code follows a null device |
| FdTable.Table.Fcntl | software/usb_kb_bsp/HAL/src/alt_fcntl.c:66-101 | Reads the flags without the internal ones, sets only the two it may, open descriptor or not; the free descriptors stay without flags exactly for the calls of `FdPool.FcntlCleanExactly` |
| FdTable.Table.Close | software/usb_kb_bsp/HAL/src/alt_close.c:64-101 | The driver is told, the descriptor freed whatever it answers, as `FdPool.CloseOutcome` says; on a free descriptor the code follows a null device |
| FdTable.Table.OpenFd | software/usb_kb_bsp/HAL/src/alt_io_redirect.c:58-72 | If the open succeeds the standard descriptor takes over the new one's fields and the new one is released; else nothing moves |
| FdTable.Table.IoRedirect | software/usb_kb_bsp/HAL/src/alt_io_redirect.c:85-94 | Three redirections in the order output, input, error, each on the pool the one before left |
| TimeOfDay.SetThenGet | software/usb_kb_bsp/HAL/src/alt_gettod.c:91-112 | For a rate dividing 10^6, a normalised time and a tick count whose microseconds fit 32 bits at the set: a get k ticks later returns the time set plus exactly k ticks, normalised and not clamped |
| TimeOfDay.SetThenGetExactly | software/usb_kb_bsp/HAL/src/alt_settod.c:82-84 | The same at every tick count of the set: the result is exact if and only if the microseconds since reset overflowed 32 bits a multiple of 15625 times, or nothing has passed since time zero and the clamp hides the error |
| TimeOfDay.ImmediateRoundTrip | software/usb_kb_bsp/HAL/src/alt_settod.c:82-84 | For every rate and tick count: a get right after a set returns the time set, if and only if the microseconds since reset overflowed 32 bits a multiple of 15625 times, or the clamp to zero hides the error |
| TimeOfDay.PartsAgree | software/usb_kb_bsp/HAL/src/alt_settod.c:83-84 | The 32-bit product of the set and the 64-bit product of the get agree modulo a second exactly then |
| TimeOfDay.RoundTripFails | software/usb_kb_bsp/HAL/src/alt_settod.c:83-84 | At 1000 ticks a second, 72 minutes after reset, they do not |
| TimeOfDay.NormaliseKeeps | software/usb_kb_bsp/HAL/src/alt_gettod.c:95-112 | The two loops yield a normalised time equal to the one they got, unless it lies before zero |
| TimeOfDay.TicksSplit | software/usb_kb_bsp/HAL/src/alt_gettod.c:91-93 | With a rate dividing a million, seconds and microseconds account for every tick |
| TimeOfDay.RawSum | software/usb_kb_bsp/HAL/src/alt_settod.c:82-84 | The 32-bit wrap-around of set and get cancel |
| TimeOfDay.WallClock.SetTimeOfDay | software/usb_kb_bsp/HAL/src/alt_settod.c:72-96 | Stores the time less the ticks, in 32-bit arithmetic, and the zone; without a clock ENOSYS and no change |
| TimeOfDay.WallClock.GetTimeOfDay | software/usb_kb_bsp/HAL/src/alt_gettod.c:71-124 | The sum with the ticks, in 64-bit arithmetic, through the borrowing and carrying loops; without a clock ENOTSUP |
| Formats.Invertible | software/usb_kb_bsp/HAL/src/alt_log_printf.c:206-297 | For every 32-bit word, base from 2 to 16, sign, padding, case and width: reading back what is printed gives the number the word means |
| Formats.FormatLength | software/usb_kb_bsp/HAL/src/alt_log_printf.c:257-279 | The output is exactly as long as the width or as sign and digits, whichever is more |
| Formats.FormatIsUnderstood | software/usb_kb_bsp/HAL/src/alt_log_printf.c:127-341 | Every well-formed format string prints what its pieces say, each with its own arguments; a precision is read and changes nothing |
| Formats.FeedWidth | software/usb_kb_bsp/HAL/src/alt_log_printf.c:176-190 | The state machine reads a width as the decimal number it is |
| Formats.FeedPrecision | software/usb_kb_bsp/HAL/src/alt_log_printf.c:172-194 | The state machine reads a precision as the decimal number after the point |
| Formats.FeedConversion | software/usb_kb_bsp/HAL/src/alt_log_printf.c:134-200 | After a percent sign, zero flag, width, precision and length the machine converts with exactly those flags |
| FormatLetters.LettersReadBack | software/usb_kb_bsp/HAL/src/alt_log_printf.c:206-335 | What %d, %i, %u, %o, %x and %X print for a 32-bit word reads back, in base 10, 10, 10, 8, 16 and 16, as the word, taken as signed by %d and %i only |
| FormatLetters.IntegerLetters | software/usb_kb_bsp/HAL/src/alt_log_printf.c:127-335 | Each of them uses up one argument and prints exactly that text: capitals for %X only; with the zero flag zeros between sign and digits, without it blanks before the sign, up to the width |
| FormatLetters.RenderedIs | software/usb_kb_bsp/HAL/src/alt_log_printf.c:202-335 | The text that a whole format has in place of such a conversion, in `Formats.FormatIsUnderstood`, is that one |
| FormatLetters.TwoConversions | software/usb_kb_bsp/HAL/src/alt_log_printf.c:127-335 | Of two conversions the first prints the first argument and the second the second |
| FormatLetters.OtherLetters | software/usb_kb_bsp/HAL/src/alt_log_printf.c:314-331 | %c prints the low byte of its argument and %s its string, each after blanks up to the width |
| FormatLetters.NoLetter | software/usb_kb_bsp/HAL/src/alt_printf.c:60-128 | Neither formatter prints anything for an unknown letter or for a percent sign at the end, and no argument is used up |
| Formats.BareHex | software/usb_kb_bsp/HAL/src/alt_printf.c:84-113 | %x without a width prints what the nibble loop of `alt_printf` prints, for every word |
| Formats.FormattersAgree | software/usb_kb_bsp/HAL/src/alt_printf.c:60-128 | On the formats both support, the two formatters print the same |
| Positional.Digits | software/usb_kb_bsp/HAL/src/alt_log_printf.c:247-255 | Digits in range, without a leading zero |
| Positional.ValueOfDigits | software/usb_kb_bsp/HAL/src/alt_log_printf.c:281-296 | The digits of a number stand for it |
| Positional.DigitAt | software/usb_kb_bsp/HAL/src/alt_log_printf.c:286-295 | Each digit is the quotient by its place value, modulo the base |
| Positional.LeadingPlace | software/usb_kb_bsp/HAL/src/alt_log_printf.c:248-255 | The number lies between the leading place value and the next |
| Positional.PlaceFits | software/usb_kb_bsp/HAL/src/alt_log_printf.c:251-255 | The place value never overflows 32 bits |
| Positional.NextPlace | software/usb_kb_bsp/HAL/src/alt_log_printf.c:294-295 | What remains after printing a digit shows the next digit at the next place |
| Printf.Console.LargestPlace | software/usb_kb_bsp/HAL/src/alt_log_printf.c:247-255 | The digit count and largest place value of every 32-bit number, the latter never above the number |
| Printf.Console.PutDigits | software/usb_kb_bsp/HAL/src/alt_log_printf.c:281-297 | The loop over place values prints the digits |
| Printf.Console.PutPrefix | software/usb_kb_bsp/HAL/src/alt_log_printf.c:257-279 | Zeros after the sign or blanks before it |
| Printf.Console.PrintInteger | software/usb_kb_bsp/HAL/src/alt_log_printf.c:206-297 | The integer conversion, with -2^31 included |
| Printf.Console.StripSign | software/usb_kb_bsp/HAL/src/alt_log_printf.c:238-245 | Magnitude and sign of the word, -2^31 included |
| Printf.Console.RepChar | software/usb_kb_bsp/HAL/src/alt_log_printf.c:106-110 | A character a number of times, none if not positive |
| Printf.Console.Conversion | software/usb_kb_bsp/HAL/src/alt_log_printf.c:202-335 | Each conversion letter uses up its argument and prints it, as `FormatLetters.IntegerLetters` and `FormatLetters.OtherLetters` spell out; an unknown letter does neither |
| Printf.Console.Next | software/usb_kb_bsp/HAL/src/alt_log_printf.c:130-339 | One character of the format string moves state variable, flags, arguments and output as the format machine does |
| Printf.Console.LogPrintf | software/usb_kb_bsp/HAL/src/alt_log_printf.c:114-341 | For every format string, well-formed or not, the output is that of the format machine |
| Printf.Console.FirstShift | software/usb_kb_bsp/HAL/src/alt_printf.c:98-101 | The first non-zero nibble is that of the leading digit; the search stays within the word |
| Printf.Console.PrintHex | software/usb_kb_bsp/HAL/src/alt_printf.c:84-113 | The nibble loop prints the hexadecimal digits |
| Printf.Console.AltPrintf | software/usb_kb_bsp/HAL/src/alt_printf.c:51-132 | The output for every format string, including one that ends in a percent sign |
| Interrupts.EveryRun | software/usb_kb_bsp/HAL/src/alt_iic_isr_register.c:82-98 | For every program of registrations, disables, enables of lines that have a handler by then, nested critical sections, device activity and interrupts whose handlers do the same: an enabled line has a handler, IENABLE equals the software mask, every dispatched call went to the lowest-numbered pending line through a handler, and the status word is back to what it was |
| Interrupts.EnabledIsRegistered | software/usb_kb_bsp/HAL/src/alt_iic_isr_register.c:92-95 | If besides no line is disabled directly, exactly the lines with a handler are enabled |
| Interrupts.ExecKeeps | software/usb_kb_bsp/HAL/inc/priv/alt_legacy_irq.h:68-99 | Each action, at any nesting depth, keeps that invariant and restores the status word |
| Interrupts.DispatchKeeps | software/usb_kb_bsp/HAL/src/alt_irq_handler.c:128-159 | So does each round of the dispatcher |
| Interrupts.RegisterOutcome | software/usb_kb_bsp/HAL/src/alt_iic_isr_register.c:75-101 | Registering stores handler and context in the slot of the line and in no other, enables the line for a handler and disables it for a null pointer, and calls nothing; for a number from 32 to 2^31 - 1 nothing changes |
| Interrupts.MaskOutcome | software/usb_kb_bsp/HAL/inc/priv/alt_legacy_irq.h:68-99 | Enabling or disabling a line changes that line in mask and IENABLE, and nothing else |
| Interrupts.InterruptOutcome | software/usb_kb_bsp/HAL/src/alt_irq_handler.c:128-159 | A call is made if and only if PIE is set and an enabled line is asserted: to the lowest such line, with the handler and context in its slot |
| Interrupts.CallsGoThrough | software/usb_kb_bsp/HAL/src/alt_irq_handler.c:143-150 | In every program every call is made through the handler and the context that its line was last registered with |
| Interrupts.ExecRemembers | software/usb_kb_bsp/HAL/src/alt_iic_isr_register.c:92-93 | Every action, at any nesting depth, keeps each slot at the last registration of its line |
| Interrupts.DirectEnable | software/usb_kb_bsp/HAL/inc/priv/alt_legacy_irq.h:86-99 | Enabling a line directly keeps the invariant if and only if the line has a handler |
| Interrupts.NullCall | software/usb_kb_bsp/HAL/src/alt_irq_handler.c:143-150 | Without a handler the dispatcher can be led to call a null pointer |
| Interrupts.CompleteIsEmpty | software/usb_kb_bsp/HAL/src/alt_irq_handler.c:128-159 | Handlers followed until the dispatcher reads an empty word, and only those, leave nothing pending |
| Interrupts.RespectedExactly | software/usb_kb_bsp/HAL/src/alt_iic_isr_register.c:79-82 | The signed test keeps registration to the table exactly for numbers below 2^31, and lets exactly the lines that exist through |
| Interrupts.SectionIsAtomic | software/usb_kb_bsp/HAL/inc/sys/alt_irq.h:113-159 | No handler is called inside a critical section, nor inside a handler |
| Interrupts.ServedInOrder | software/usb_kb_bsp/HAL/src/alt_irq_handler.c:116-159 | Handlers that silence their own line are called once for each pending line, in ascending order, until nothing is pending |
| Interrupts.First | software/usb_kb_bsp/HAL/src/alt_irq_handler.c:132-155 | The lowest-numbered line of a non-empty word |
| Interrupts.Controller.constructor | software/usb_kb_bsp/alt_sys_init.c:81-85 | Start-up: empty table, all lines masked, interrupts on |
| Interrupts.Controller.DisableAll | software/usb_kb_bsp/HAL/inc/sys/alt_irq.h:113-123 | Clears PIE only and returns the word it found |
| Interrupts.Controller.EnableAll | software/usb_kb_bsp/HAL/inc/sys/alt_irq.h:143-159 | Restores the saved word |
| Interrupts.Controller.EnableLine | software/usb_kb_bsp/HAL/inc/priv/alt_legacy_irq.h:86-99 | Adds the line to mask and IENABLE, status unchanged |
| Interrupts.Controller.DisableLine | software/usb_kb_bsp/HAL/inc/priv/alt_legacy_irq.h:68-81 | Removes the line from both, status unchanged |
| Interrupts.Controller.RegisterIsr | software/usb_kb_bsp/HAL/src/alt_iic_isr_register.c:75-101 | Handler and context are in the slot of the line, all other slots as they were; a handler enables its line, a null pointer disables it, a line that does not exist is refused without a change, and numbers from 2^31 on would be written outside the table; the critical section around it, with those of the enables nested in it, leaves the status word as it was |
| Interrupts.Controller.FindPending | software/usb_kb_bsp/HAL/src/alt_irq_handler.c:132-155 | The bit search ends at the lowest-numbered pending line |
| Interrupts.Controller.HandleIrq | software/usb_kb_bsp/HAL/src/alt_irq_handler.c:80-167 | The loop calls the lowest pending line, reads the pending word again, and when the handlers are followed to the end leaves nothing pending |
| Interrupts.Controller.TakeInterrupt | software/usb_kb_bsp/HAL/src/alt_irq_handler.c:80-167 | An interrupt is taken exactly when PIE is set and a line is pending, and returns with the status word as it was |
| Interrupts.Controller.Perform | software/usb_kb_bsp/HAL/src/alt_iic_isr_register.c:75-101 | Registrations, sections and interrupts, nested to any depth and carried out with DisableAll and EnableAll, do what the programs mean and restore PIE and the rest of the status word |
| MarioStep.Bounds | Mario.sv:42-67 | After a reset, whatever the registers held before, any keys and block polls: X in [138, 300], Y odd in [57, 421], the jump counter at most 95, never falling and ascending at once |
| MarioStep.RunKeeps | Mario.sv:42-172 | The bounds are kept by every run |
| MarioStep.NoWrap | Mario.sv:86-172 | Within them no 10-bit sum wraps, so a frame moves Mario by the signed amounts |
| MarioStep.FrameTakesAir | Mario.sv:88-119 | A frame in the air lowers a measure of jump counter and height, or lands on the floor or a block |
| MarioStep.EveryJumpEnds | Mario.sv:86-119 | Whatever the keys and blocks, fewer than 373 frames pass in the air |
| MarioStep.AscendingFrame | Mario.sv:88-107 | One frame of an ascent: starts only at the jump key from rest under open air, two pixels a count, ends in a fall |
| MarioStep.VerticalExactly | Mario.sv:86-119 | From any state within the bounds a jump starts if and only if the key is 0x1A, Mario is not falling or ascending and nothing is above; an ascent goes on unless it is at 95, at the ceiling or under a block; he stands exactly on the floor or a block; each two pixels a frame |
| MarioStep.SidewaysExactly | Mario.sv:121-171 | Key 0x04 moves him left and 0x07 right, two pixels or one while jumping, unless a block or the edge is in the way; from 299 on the screen moves by 40 instead |
| MarioStep.SpriteExactly | Mario.sv:121-158 | The sprite timer runs while he walks, the run counter goes 1, 2, 3, 2, 3 at its wraps, and standing resets it |
| MarioStep.ClockExactly | Mario.sv:36-67 | One clock takes the reset values, or a frame if the edge detector has seen the frame clock rise, or changes nothing |
| MarioStep.AscentIsCounted | Mario.sv:95-107 | A whole ascent is at most 95 frames and exactly two pixels each, 190 at most |
| MarioStep.ScrollConserves | Mario.sv:163-171 | The screen position plus 40 for every shift is unchanged by a shift and moves at most 2 in any other clock |
| MarioStep.ShiftsAreApart | Mario.sv:163-171 | At least 20 frames lie between two shifts |
| MarioStep.AddNegative | Mario.sv:90 | Adding the complement the code forms is subtracting |
| MarioStep.MarioRegisters.MoveVertically | Mario.sv:86-119 | The nested conditions come to three cases, rise, fall and stand, which `MarioStep.VerticalExactly` tells apart |
| MarioStep.MarioRegisters.MoveSideways | Mario.sv:121-158 | Left wins over right; standing resets the run counter; the sprite timer wraps at 9 |
| MarioStep.MarioRegisters.NextState | Mario.sv:70-173 | Without a frame edge every register keeps its value; with one they take the next frame's |
| MarioStep.MarioRegisters.OnClock | Mario.sv:36-67 | One clock: reset wins over the frame step, and a frame step happens one clock after a rising edge |
| VgaTiming.ClosedForm | VGA_controller.sv:53-100 | n pixel clocks after reset: column n mod 800, line (n div 800) mod 525, and sync and blanking low exactly in their intervals |
| VgaTiming.FrameCovers | VGA_controller.sv:73-85 | Any 420000 consecutive clocks after the reset visit each rectangle of the raster once, place by place |
| VgaTiming.EveryPixelOnce | VGA_controller.sv:96-99 | Every visible pixel is drawn exactly once in them |
| VgaTiming.FrameSignals | VGA_controller.sv:86-99 | They hold 307200 unblanked clocks, 96 * 525 with HS low and 1600 with VS low |
| VgaTiming.TicksAreHits | VGA_controller.sv:86-99 | Each signal is low or high exactly in its rectangle of the raster |
| VgaTiming.FrameArea | VGA_controller.sv:38-41 | A frame's worth of clocks meets a rectangle as often as its area, wherever it starts |
| VgaTiming.VgaRegisters.Next | VGA_controller.sv:73-100 | The combinational block, assignment by assignment, comes to the next state of the counters and signals |
| VgaTiming.VgaRegisters.OnClock | VGA_controller.sv:53-71 | One clock of the registers, keeping them at the closed form of the clocks since reset |

## Left out

- UartDriver.JtagUart.Write: the spin loop is bounded by a parameter `patience`, and a call that outlasts it is reported as still waiting; `UartLiveness.WriteReturns` and `UartLiveness.ServedWriteReturns` bound the steps of the unbounded loop.
- UartDriver.JtagUart.AwaitRoom: the same bound.
- UartDriver.JtagUart.WriteAll: the same bound.
- UartDriver.JtagUart.Read: the same bound on its spin loop; whether data comes is up to the host.
- UartDriver.JtagUart.ReadLoop: the same bound.
- UartDriver.JtagUart.Close: the same bound on its spin loop.
- UartDriver.JtagUart.Idle: in the class a read and a write do not overlap; runs in which both are in progress are covered by the step system.
- FdPool.OpenOutcome: a failing open may leave the private pointer a driver stored and a raised mark, and clears flags that F_SETFL left on the free descriptor, as the code does.
- AlarmList.AlarmSystem.Tick: alarms that are visited and not due leave no trace in the log; that they are visited is said by the record, and that nothing else happens to them by the replay.
- TimeOfDay.SetThenGet: the time set is not before zero, where the get clamps, and the seconds stay within a signed 32-bit number, beyond which C does not define the carry.
- TimeOfDay.SetThenGetExactly: the same two limits, and rates that divide a million; `TimeOfDay.ImmediateRoundTrip` also covers times before zero and every rate.
- Formats.FormatIsUnderstood: an argument that is missing or of another kind than its conversion is undefined in C and read as nothing; a width of more than 31 bits is not truncated.
- FdTable.Table.Ioctl: that a null device is followed is reported and the pool left as it was; what the processor does then is not modelled.
- Interrupts.Controller.HandleIrq: what handlers do is a finite list of rounds; when it is shorter than the interrupt the statement is about the rounds given.
- Interrupts.ServedInOrder: priority order is stated for handlers that silence their own line and raise no other; for all handlers each single call goes to the lowest-numbered pending line.
- 32-bit words of the interrupt controller are sets of lines, and words with flags are records of the bits the code masks; shifting and masking of whole words is not modelled there.
- Nested interrupts through `alt_irq_interruptible`, the exception entry in assembler and the vector custom instruction.
- Callbacks, handlers, drivers and the host are arbitrary behaviour within the assumptions above; callback and context pointers are not stored.
- The semaphores and event flags of the driver and the pool, which are empty without an operating system, and its branches with one.
- The small UART driver, the variant that ignores a full FIFO, and the logging calls inside the driver.
- The search by name: `open` starts from the device or file system that was found, if any.
- The motion registers of Mario, which are written but never read, the drawing comparison, blocks, coins, enemies and colours: polls are arbitrary inputs.
- The USB controller, the transfer lists, the flash and DMA headers, stub system calls and memory allocation: tables, register pokes or single branches.
