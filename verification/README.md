# CAN driver, AXI test master and slave, audio PWM: models and proofs

A Dafny model of the three parts of the CAN bench repository that hold state worth
reasoning about, with proofs about all their runs.

* **The Xilinx CAN driver** (`xilinx_can.c`). `XcanTxProtocol` is the transmit side as a
  transition system whose steps are the statements of `xcan_start_xmit` and of the
  interrupt handler and the completions of the hardware. `XcanEchoRing` proves that its
  echo ring refines a queue, `XcanTxStall` exactly when
  the queue can stop for good. `XcanTxDriver` has the C functions, a class that
  updates `tx_head`, `tx_tail`, an array of echo slots and the device's FIFO words in place; a ghost field
  ties every statement to one step of the protocol, so each result about the protocol holds
  of the class. `XcanRxProtocol` and `XcanRxDriver` do the same for the receive interrupt and
  the NAPI poll. `XcanTimestamp` is the timestamp recovery, `XcanFrame` the register image of
  a frame, `XcanLink` the way of a sequence of frames from one node's stack to another's, `XcanResources` open, close and the error counter query.
* **The AXI4-Lite test master and slave.** `AxiMaster` and `AxiSlave` hold one rising clock
  edge, both as a function of the old registers and as the clocked processes that
  compute it (the slave's register file is an array). `AxiMasterRun` puts the master against every slave that
  obeys the handshake rules of ARM IHI 0022, sections A3.2.1 and A3.3.1,
  `AxiMasterTiming` says how long a test takes against it, `AxiSlaveRun` the slave, resets included,
  against every such master with one write and one read outstanding, and `AxiSystem` wires
  the two together. `Clogb2` and `ByteLanes` hold the counter width and the byte strobes.
* **The audio PWM.** `Pwm` has the divider, the pulse generator and their composition;
  `AudioTop` feeds it from the slave's registers.

`Machine` has fixed-width integers and remainder facts. `dafny verify dfyconfig.toml` checks
the whole project.

## Assumptions

* TX: one CPU. The handler may preempt a transmit between any two of its statements and
  then runs to its end. A run starts at the first open and has no software reset. TXOK is set only by
  a completed transmission and cleared only through ICR; the hardware FIFO never holds
  more than the frames pushed and not completed. Every frame asks for a loopback echo.
* Bus between two nodes: entries arrive in the order they were sent, with the identifier word,
  the length nibble and the bytes it covers; everything else in the received words is arbitrary.
* RX: clearing RXNEMP raises it again exactly when the FIFO is not empty; the FIFO does
  not overflow; scheduling NAPI twice is the same as once; one poll runs at a time.
  The interrupt may start at any moment, also for other causes and while masked.
* Timestamps: the clock read by the driver never goes back, and 0 < frequency <= 10^9 (above
  that the driver would divide by zero). Accuracy is about a hardware counter that runs
  exactly at the nominal frequency.
* AXI: outputs are registers, so a response follows its request by a cycle; a test is started only
  when the master is idle. The repository's top level ties the master's start input to
  '0' and connects it to no slave of its own; `AxiSystem` joins the two directly.
* Kernel calls that can fail (allocation, interrupt, clocks, reset) fail arbitrarily:
  the outcome is a parameter or a nondeterministic choice.

## Where code and intent disagree

The code is what is modelled.

* The comment on `clogb2` promises the ceiling of the logarithm; the code computes the bit
  length, one more for 1 and for powers of two above 2 (`Clogb2.CeilingExactly`).
* The comment before `xcan_timestamp2ktime` assumes that a frame is never older than the
  reference point; the code accepts older ones. `XcanTimestamp.LiveAgainstComment` has the exact
  relation, `XcanTimestamp.CommentMatchesExactly` the frequencies it holds for.
* The message "TX FIFO full when queue awake" calls its branch a bug of the driver; it is
  reachable exactly when the hardware FIFO is shorter than `tx_max`
  (`XcanTxProtocol.BusyExactlyWhenFifoShort`).
* A stopped queue is meant to be woken by the next TX interrupt. A handler that runs between
  the check for a full ring and the stop, or between the read of TXFLL and the stop, can be the
  last one (`XcanTxStall.QueueCanStall`, `XcanTxStall.StallBeforeFullExactly`); these two windows
  are the only ways to lose the wake if the device has any FIFO (`XcanTxStall.StallOutsideExactly`).
* The echo ring takes the slot number after the counter has wrapped to 32 bits, so an echo
  can be lost in it unless `tx_max` divides 2^32 (`XcanEchoRing.EchoLossExactly`).

## Model

| member | source | states |
|---|---|---|
| `XcanTxProtocol.StepKeepsCounted` | petalinux/components/modules/xilinx_can/xilinx_can.c:402-475 | the counting invariant is kept by every statement of the transmit and of the handler and by every completion, in any order |
| `XcanTxProtocol.AlwaysCounted` | petalinux/components/modules/xilinx_can/xilinx_can.c:402-475 | the counting invariant holds after every interleaved run |
| `XcanTxProtocol.Accounting` | petalinux/components/modules/xilinx_can/xilinx_can.c:454-472 | tx_tail plus a pending TXOK <= completed <= pushed <= tx_head <= tx_tail + tx_max, and the wrapping difference of the counters is the true one, in every reachable state |
| `XcanTxProtocol.QueueDiscipline` | petalinux/components/modules/xilinx_can/xilinx_can.c:471-472 | an awake queue with no transmit in progress has room for a frame |
| `XcanTxProtocol.NothingBeforeCompletion` | petalinux/components/modules/xilinx_can/xilinx_can.c:924-925 | until the hardware has completed a frame, no interrupt makes the handler touch the transmit side |
| `XcanTxProtocol.BusyExactlyWhenFifoShort` | petalinux/components/modules/xilinx_can/xilinx_can.c:412-418 | the busy branch can be reached if and only if the hardware FIFO is shorter than tx_max |
| `XcanTxProtocol.SentInOrder` | petalinux/components/modules/xilinx_can/xilinx_can.c:454-468 | for every tx_max and any number of frames: the hardware gets the accepted frames in order, each once and each well-formed |
| `XcanTxStall.DeadExactly` | petalinux/components/modules/xilinx_can/xilinx_can.c:402-475 | a reachable state is one that nothing can change any more if and only if the queue is stopped, nothing is in progress, every frame is completed and TXOK is clear |
| `XcanTxStall.QueueCanStall` | petalinux/components/modules/xilinx_can/xilinx_can.c:471-472 | for every tx_max such a state is reachable through the check for a full ring: a handler that runs between the check and the stop sees the last completion, and its wake is lost |
| `XcanTxStall.StallBeforeFullExactly` | petalinux/components/modules/xilinx_can/xilinx_can.c:412-418 | such a state is reachable before the ring was ever full, through the read of TXFLL, if and only if the hardware FIFO is shorter than tx_max |
| `XcanTxStall.AlwaysWakes` | petalinux/components/modules/xilinx_can/xilinx_can.c:402-475 | with any FIFO at all, after every run in which the handler starts in neither window, a stopped queue has an interrupt pending or to come |
| `XcanTxStall.StallOutsideExactly` | petalinux/components/modules/xilinx_can/xilinx_can.c:402-475 | a run that stalls the queue although the handler starts in neither window exists if and only if the device has no FIFO at all; so completions that share one TXOK never stall it by themselves |
| `XcanTxStall.StopStallsExactly` | petalinux/components/modules/xilinx_can/xilinx_can.c:412-472 | a stop is for good if and only if no interrupt is pending and no frame is out when it is made |
| `XcanEchoRing.SlotsDistinctExactly` | petalinux/components/modules/xilinx_can/xilinx_can.c:454-455 | frames in flight together have different slots, among the first n, if and only if tx_max divides 2^32 or n <= 2^32 |
| `XcanEchoRing.StepRefines` | petalinux/components/modules/xilinx_can/xilinx_can.c:880-888 | while the slots of the frames accepted so far are distinct (SlotsDistinctExactly says when), every step keeps the ring a queue: the slots hold exactly the accepted frames not yet returned |
| `XcanEchoRing.EchoRingIsQueue` | petalinux/components/modules/xilinx_can/xilinx_can.c:883-885 | if tx_max divides 2^32, or at most 2^32 frames were accepted: the k-th echo returned is the k-th frame accepted and was completed before, one echo for each step of tx_tail; every frame in flight is still in its slot |
| `XcanEchoRing.NoEchoOverwritten` | petalinux/components/modules/xilinx_can/xilinx_can.c:454-455 | if tx_max divides 2^32, or fewer than 2^32 frames were accepted: a transmit finds its echo slot empty, across wrap-around of the counters |
| `XcanEchoRing.OccupiedSlotSurvives` | petalinux/components/modules/xilinx_can/xilinx_can.c:454-455 | whatever tx_max is, an occupied slot keeps its frame until the handler takes it |
| `XcanEchoRing.EchoLossExactly` | petalinux/components/modules/xilinx_can/xilinx_can.c:454-455 | some run parks a frame in an occupied slot if and only if tx_max does not divide 2^32 |
| `XcanTxDriver.TxDriver.StartXmit` | petalinux/components/modules/xilinx_can/xilinx_can.c:402-475 | with completions and handler runs between any two statements: a malformed frame changes nothing; otherwise either nothing is sent and the queue stopped (only with a FIFO shorter than tx_max), or the frame is accepted and its words pushed once, and if tx_max divides 2^32 its echo is in its slot or was handed back; the queue is left awake only with room |
| `XcanTxDriver.TxDriver.CheckFifo` | petalinux/components/modules/xilinx_can/xilinx_can.c:411-418 | the read of TXFLL and the stop as two statements, with the handler possibly waking the queue in between: a set bit stops the queue, keeps the frame out and implies a FIFO shorter than tx_max |
| `XcanTxDriver.TxDriver.WriteFrame` | petalinux/components/modules/xilinx_can/xilinx_can.c:457-468 | the register writes push exactly this frame once, at the DLC word for a remote frame and at the last data word otherwise; the entry is given in numbers: every bit of the identifier word, the length nibble, and the bytes of a data frame |
| `XcanTxDriver.TxDriver.StopIfFull` | petalinux/components/modules/xilinx_can/xilinx_can.c:470-472 | the check and the stop as two statements, with the handler possibly emptying the ring in between, keep every invariant |
| `XcanTxDriver.TxDriver.Drain` | petalinux/components/modules/xilinx_can/xilinx_can.c:880-888 | the drain loop ends only with TXOK clear or no frame out, advances tx_tail unless no frame is out, returns one echo for each step of tx_tail if tx_max divides 2^32, and touches nothing of the transmit |
| `XcanTxDriver.TxDriver.TxInterrupt` | petalinux/components/modules/xilinx_can/xilinx_can.c:875-891 | tx_tail advances unless no frame is out; if tx_max divides 2^32, the echoes handed back are the next accepted frames in order, one for each step of tx_tail; the queue is left awake with room |
| `XcanTxDriver.TxDriver.Interrupt` | petalinux/components/modules/xilinx_can/xilinx_can.c:904-925 | one whole run of the handler: the echoes it hands back follow those returned before, and the transmit in progress is left alone |
| `XcanRxProtocol.AlwaysInv` | petalinux/components/modules/xilinx_can/xilinx_can.c:835-868 | the receive invariant holds after every interleaved run of handler, poll and arrivals |
| `XcanRxProtocol.NoLostWakeup` | petalinux/components/modules/xilinx_can/xilinx_can.c:860-866 | receive bits masked implies NAPI scheduled or an unmask or a schedule about to come; a waiting frame has a poll or an enabled interrupt coming |
| `XcanRxProtocol.OnlyThePollUnmasks` | petalinux/components/modules/xilinx_can/xilinx_can.c:860-866 | only a poll that ended below its quota turns the receive interrupts on |
| `XcanRxProtocol.QuotaUsedUp` | petalinux/components/modules/xilinx_can/xilinx_can.c:860-867 | a poll that used up its quota changes nothing more and leaves NAPI scheduled |
| `XcanRxProtocol.QuietBeforeFirst` | petalinux/components/modules/xilinx_can/xilinx_can.c:937-942 | until a frame has arrived, no interrupt masks, schedules or polls anything |
| `XcanRxProtocol.NothingLostOrReordered` | petalinux/components/modules/xilinx_can/xilinx_can.c:843-858 | what arrived is what was delivered followed by what is in the FIFO, allocation failures included |
| `XcanRxProtocol.EmptyFifoNeverRead` | petalinux/components/modules/xilinx_can/xilinx_can.c:843-848 | the poll pops only a FIFO that holds a frame |
| `XcanRxProtocol.ReceiveBitMeansFrame` | petalinux/components/modules/xilinx_can/xilinx_can.c:843-858 | a receive bit is set only while a frame waits, but for the last frame between its pop and the clearing of RXNEMP |
| `XcanRxProtocol.MoveAdvances` | petalinux/components/modules/xilinx_can/xilinx_can.c:835-868 | every statement of the undisturbed driver delivers the oldest frame or lowers the distance to its delivery, and an interrupt it takes is asserted and not masked |
| `XcanRxProtocol.WaitingFrameIsDelivered` | petalinux/components/modules/xilinx_can/xilinx_can.c:835-868 | from every reachable state with a frame waiting the driver, left undisturbed, delivers it within 16 of its statements, without an interrupt that is masked or not asserted |
| `XcanRxProtocol.ComesToRest` | petalinux/components/modules/xilinx_can/xilinx_can.c:835-868 | with no frame waiting the undisturbed driver comes to rest within 32 statements: interrupts on, NAPI given back |
| `XcanRxProtocol.DeliveredUnderInterference` | petalinux/components/modules/xilinx_can/xilinx_can.c:835-868 | from every reachable state with a frame waiting, however handler runs and arrivals interleave, nine actions of the poll deliver it |
| `XcanRxDriver.RxDriver.RxPoll` | petalinux/components/modules/xilinx_can/xilinx_can.c:835-868 | for every quota: returns the number delivered, never above the quota; what waited in the FIFO is delivered oldest first or still waits before anything newer, and is all delivered when the poll returns below its quota; then it unmasks, otherwise NAPI stays scheduled and masked interrupts stay off; loop rounds are at most frames plus failed allocations |
| `XcanRxDriver.RxDriver.DrainFifo` | petalinux/components/modules/xilinx_can/xilinx_can.c:843-858 | the poll loop: what it delivers is what waited, oldest first, then what arrived meanwhile; it stops only at an empty FIFO or at the quota |
| `XcanRxDriver.RxDriver.Rx` | petalinux/components/modules/xilinx_can/xilinx_can.c:593-662 | hands the oldest entry to the stack, decoded as given in numbers (identifier, flags, length, bytes), or none and keeps it in the FIFO when the allocation fails; nothing that waited is lost |
| `XcanRxDriver.RxDriver.Interrupt` | petalinux/components/modules/xilinx_can/xilinx_can.c:937-942 | masks the receive interrupts and schedules NAPI if a receive bit is set, and otherwise changes nothing |
| `XcanLink.SequenceRoundTrip` | petalinux/components/modules/xilinx_can/xilinx_can.c:402-868 | two nodes on one bus, each in any reachable state: the frames handed to the receiving stack are the first ones the sender accepted, in order, each once, with identifier, flags, length and data intact; the others that arrived wait in the FIFO |
| `XcanFrame.IdRoundTrip` | petalinux/components/modules/xilinx_can/xilinx_can.c:421-445 | the identifier word decodes to the identifier and flags the bus carries, for all 2^32 values |
| `XcanFrame.FlagsOnTheWire` | petalinux/components/modules/xilinx_can/xilinx_can.c:626-637 | extended and remote flags survive |
| `XcanFrame.EncodedImage` | petalinux/components/modules/xilinx_can/xilinx_can.c:420-468 | the four words of every valid frame in numbers; a data word the length does not reach is zero |
| `XcanFrame.DecodedImage` | petalinux/components/modules/xilinx_can/xilinx_can.c:607-655 | the frame that any four words decode to, in numbers; lengths above 8 read as 8, remote frames have no data |
| `XcanFrame.FrameRoundTrip` | petalinux/components/modules/xilinx_can/xilinx_can.c:421-655 | a valid frame comes back with its identifier, flags, length and first dlc bytes, whatever timestamp and padding the hardware puts into the words |
| `XcanFrame.EntryRoundTrip` | petalinux/components/modules/xilinx_can/xilinx_can.c:457-655 | the same for a FIFO entry, whose data words a remote frame leaves as they were |
| `XcanTimestamp.Clock.Timestamp2Ktime` | petalinux/components/modules/xilinx_can/xilinx_can.c:546-565 | the u64, u16 and s16 steps of the code compute the mathematical time, read as 64 bits; the reference point is set by the first call only |
| `XcanTimestamp.NoOverflow` | petalinux/components/modules/xilinx_can/xilinx_can.c:562 | the 64-bit reading changes nothing until about nine hours before the range of ktime ends |
| `XcanTimestamp.FrameTicksUnique` | petalinux/components/modules/xilinx_can/xilinx_can.c:555-560 | the tick count is the only one that ends in the hardware stamp and lies within half a rollover of the estimate, before or after the reference |
| `XcanTimestamp.WithinHalfRollover` | petalinux/components/modules/xilinx_can/xilinx_can.c:555-562 | now minus the reported time lies between -(2^15 - 1) ticks and 2^15 ticks plus mul - 1 ns |
| `XcanTimestamp.RecoveredExactly` | petalinux/components/modules/xilinx_can/xilinx_can.c:555-560 | the hardware count is recovered if and only if the estimate is off by at most half a rollover, at any frequency |
| `XcanTimestamp.RecoveryWindow` | petalinux/components/modules/xilinx_can/xilinx_can.c:1354-1355 | when the frequency divides 10^9: the count is recovered for extra latencies from -(2^15 - 2) ticks - 1 ns to 2^15 ticks |
| `XcanTimestamp.RecoveryWindowExactly` | petalinux/components/modules/xilinx_can/xilinx_can.c:546-562 | for no other extra latency is it recovered whatever the arrivals and the phase of the counter: the window is exact to the nanosecond |
| `XcanTimestamp.ReportedTime` | petalinux/components/modules/xilinx_can/xilinx_can.c:546-562 | the reported time is arrival plus first-frame latency to within one tick |
| `XcanTimestamp.RunAccuracy` | petalinux/components/modules/xilinx_can/xilinx_can.c:546-562 | that accuracy for every frame of a run of any length, without accumulation |
| `XcanTimestamp.ExactFrequencies` | petalinux/components/modules/xilinx_can/xilinx_can.c:1354-1355 | equal latencies always recover the count if and only if the frequency divides 10^9 |
| `XcanTimestamp.LiveAgainstComment` | petalinux/components/modules/xilinx_can/xilinx_can.c:477-499 | after a rollover the code and the comment agree when the adjustment is <= 0 and the code is one rollover later when it is > 0; before one, the code is a rollover earlier if the stamp is half a rollover or more ahead of the clock estimate, later if more than half behind, and equal otherwise |
| `XcanTimestamp.CommentMatchesExactly` | petalinux/components/modules/xilinx_can/xilinx_can.c:477-499 | that relation holds for every input if and only if 2^16 * (10^9 mod freq) < freq |
| `XcanResources.Interface.Open` | petalinux/components/modules/xilinx_can/xilinx_can.c:973-1031 | returns the code of the first acquisition that failed, or 0 exactly when all succeed, and then holds each resource once more; on any failure every one is as before; which chip accesses it makes, each with both clocks on |
| `XcanResources.Interface.Close` | petalinux/components/modules/xilinx_can/xilinx_can.c:1039-1054 | releases each resource once, after stopping the chip with both clocks on |
| `XcanResources.Interface.GetBerrCounter` | petalinux/components/modules/xilinx_can/xilinx_can.c:1064-1091 | leaves every resource as it was, whichever clock fails, and returns that code; the transmit counter is the low byte of the first read, the receive counter the second byte of the second; reads the chip only with both clocks on |
| `XcanResources.RunCalls` | petalinux/components/modules/xilinx_can/xilinx_can.c:973-1091 | over every sequence of calls with any failures, everything is held exactly once when the interface is open and nothing otherwise, and these calls never access the chip without its clocks |
| `Clogb2.ClogB2` | system/ip/audio_single_pwm_1.0/hdl/audio_single_pwm_v1_0_M00_AXI.vhd:100-119 | the loop computes the bit length of its argument, 1 up to 2 |
| `Clogb2.BitLengthBounds` | system/ip/audio_single_pwm_1.0/hdl/audio_single_pwm_v1_0_M00_AXI.vhd:100-119 | b is the bit length: 2^(b-1) <= x < 2^b |
| `Clogb2.CeilingExactly` | system/ip/audio_single_pwm_1.0/hdl/audio_single_pwm_v1_0_M00_AXI.vhd:98-119 | it is the promised ceiling of the logarithm if and only if the argument is 2 or a larger number that is not a power of two |
| `Clogb2.WidthSuffices` | system/ip/audio_single_pwm_1.0/hdl/audio_single_pwm_v1_0_M00_AXI.vhd:178-180 | for every N >= 1 an index counter can represent N |
| `Clogb2.WidthIsTight` | system/ip/audio_single_pwm_1.0/hdl/audio_single_pwm_v1_0_M00_AXI.vhd:123-180 | for N > 3 the width is the bit length of N - 1 and the counters have one bit more; for N up to 3 they have two bits |
| `AxiMaster.MasterCore.RisingEdge` | system/ip/audio_single_pwm_1.0/hdl/audio_single_pwm_v1_0_M00_AXI.vhd:224-701 | the clocked processes together make exactly the step of the reference function |
| `AxiMaster.ResetClears` | system/ip/audio_single_pwm_1.0/hdl/audio_single_pwm_v1_0_M00_AXI.vhd:224-701 | what a reset leaves in every register, whatever the master was doing |
| `AxiMaster.PulseClears` | system/ip/audio_single_pwm_1.0/hdl/audio_single_pwm_v1_0_M00_AXI.vhd:263-701 | what a start pulse clears, in any state |
| `AxiMaster.SilentUntilAsked` | system/ip/audio_single_pwm_1.0/hdl/audio_single_pwm_v1_0_M00_AXI.vhd:224-236 | after a reset the master asks for nothing and reports nothing while INIT_AXI_TXN stays low, whatever the slave drives |
| `AxiMasterRun.InvStep` | system/ip/audio_single_pwm_1.0/hdl/audio_single_pwm_v1_0_M00_AXI.vhd:263-701 | the invariant over the master, its handshake log and open responses is kept by every edge with an obeying slave |
| `AxiMasterRun.TestOutcome` | system/ip/audio_single_pwm_1.0/hdl/audio_single_pwm_v1_0_M00_AXI.vhd:504-701 | whenever TXN_DONE is up: exactly N writes of START + k to BASE + 4k, then N reads of the same addresses, and ERROR if and only if some response was SLVERR or DECERR or some read differed, the last one included; ERROR is down while TXN_DONE is |
| `AxiMasterRun.OneOutstanding` | system/ip/audio_single_pwm_1.0/hdl/audio_single_pwm_v1_0_M00_AXI.vhd:526-572 | in every cycle at most one transaction is outstanding, reads start after the last write response, and all payloads so far are right |
| `AxiMasterRun.ValidsHeld` | system/ip/audio_single_pwm_1.0/hdl/audio_single_pwm_v1_0_M00_AXI.vhd:263-402 | every valid and its payload stay until accepted |
| `AxiMasterRun.CountersNeverWrap` | system/ip/audio_single_pwm_1.0/hdl/audio_single_pwm_v1_0_M00_AXI.vhd:590-645 | no transaction counter exceeds N, which it can represent |
| `AxiMasterTiming.TestDuration` | system/ip/audio_single_pwm_1.0/hdl/audio_single_pwm_v1_0_M00_AXI.vhd:504-587 | against any obeying slave a test takes exactly 10N + 3 cycles and those in which the slave keeps the master waiting; TXN_DONE is up at the end of them and in none before |
| `AxiMasterTiming.TestEndsWithin` | system/ip/audio_single_pwm_1.0/hdl/audio_single_pwm_v1_0_M00_AXI.vhd:504-587 | if the slave leaves no request unaccepted for more than a cycles and no accepted one unanswered for more than b, TXN_DONE is up within (10 + 2(a + b))N + 3 cycles |
| `ByteLanes.WriteLanes` | system/ip/audio_single_pwm_1.0/hdl/audio_single_pwm_v1_0_S00_AXI.vhd:244-250 | the byte loop changes exactly the strobed lanes |
| `ByteLanes.LanesDetermine` | system/ip/audio_single_pwm_1.0/hdl/audio_single_pwm_v1_0_S00_AXI.vhd:244-250 | a word is determined by its byte lanes |
| `AxiSlave.SlaveCore.RisingEdge` | system/ip/audio_single_pwm_1.0/hdl/audio_single_pwm_v1_0_S00_AXI.vhd:149-535 | the clocked processes, register file in place, make exactly the step of the reference function |
| `AxiSlave.SlaveCore.Store` | system/ip/audio_single_pwm_1.0/hdl/audio_single_pwm_v1_0_S00_AXI.vhd:219-393 | writes the strobed bytes to the addressed register and nothing else |
| `AxiSlaveRun.InvStep` | system/ip/audio_single_pwm_1.0/hdl/audio_single_pwm_v1_0_S00_AXI.vhd:149-535 | the invariant of slave, history and open requests is kept by every edge out of reset with an obeying master |
| `AxiSlaveRun.ResetClears` | system/ip/audio_single_pwm_1.0/hdl/audio_single_pwm_v1_0_S00_AXI.vhd:153-531 | an edge with ARESETN low clears all sixteen registers, readies and responses, whatever the slave was doing |
| `AxiSlaveRun.SlaveIsMemory` | system/ip/audio_single_pwm_1.0/hdl/audio_single_pwm_v1_0_S00_AXI.vhd:219-535 | over runs with resets at any time: each register holds the fold of the writes accepted since the last reset that select it, starting from zero; the n-th read since then returns what its register held when it was accepted |
| `AxiSlaveRun.WordIsFold` | system/ip/audio_single_pwm_1.0/hdl/audio_single_pwm_v1_0_S00_AXI.vhd:244-250 | that fold is the one word whose every byte is the strobed byte of the last write that covers it, or what was there before |
| `AxiSlaveRun.WordUnique` | system/ip/audio_single_pwm_1.0/hdl/audio_single_pwm_v1_0_S00_AXI.vhd:244-250 | the bytes determine the word |
| `AxiSlave.IndexOfAddress` | system/ip/audio_single_pwm_1.0/hdl/audio_single_pwm_v1_0_S00_AXI.vhd:242-490 | register j has the four byte addresses from 4j on |
| `AxiSlaveRun.OneResponseEach` | system/ip/audio_single_pwm_1.0/hdl/audio_single_pwm_v1_0_S00_AXI.vhd:401-416 | since the last reset each accepted write and read has exactly one response, all of them OKAY |
| `AxiSlaveRun.AcceptedTogether` | system/ip/audio_single_pwm_1.0/hdl/audio_single_pwm_v1_0_S00_AXI.vhd:149-208 | address and data of a write are accepted at the same edge, under the latched address |
| `AxiSlaveRun.ResponsesHeld` | system/ip/audio_single_pwm_1.0/hdl/audio_single_pwm_v1_0_S00_AXI.vhd:401-469 | a response stays with its payload until accepted |
| `AxiSystem.SlaveKeepsRules` | system/ip/audio_single_pwm_1.0/hdl/audio_single_pwm_v1_0_S00_AXI.vhd:401-469 | this slave meets all that the master assumes of its slave |
| `AxiSystem.MasterKeepsRules` | system/ip/audio_single_pwm_1.0/hdl/audio_single_pwm_v1_0_M00_AXI.vhd:263-402 | this master meets all that the slave assumes of its master |
| `AxiSystem.SameRegister` | system/ip/audio_single_pwm_1.0/hdl/audio_single_pwm_v1_0_S00_AXI.vhd:478-515 | transactions k and i meet in one register if and only if k and i are congruent modulo 16 |
| `AxiSystem.MasterRuns` | system/ip/audio_single_pwm_1.0/hdl/audio_single_pwm_v1_0_M00_AXI.vhd:224-701 | every run of both is, to the master, a run against a slave that obeys the rules |
| `AxiSystem.WaitsOnce` | system/ip/audio_single_pwm_1.0/hdl/audio_single_pwm_v1_0_S00_AXI.vhd:149-442 | this slave keeps the master waiting for exactly one cycle of each transaction |
| `AxiSystem.TestTakes` | system/ip/audio_single_pwm_1.0/hdl/audio_single_pwm_v1_0_M00_AXI.vhd:504-587 | a test takes exactly 12N + 3 cycles from its start pulse, with TXN_DONE up in none before |
| `AxiSystem.VerdictOfTest` | system/ip/audio_single_pwm_1.0/hdl/audio_single_pwm_v1_0_M00_AXI.vhd:654-701 | whenever TXN_DONE is up: ERROR is 0 if and only if N <= 16, and each register holds the last data sent to it, whatever it held before |
| `AxiSystem.TestCompletes` | system/ip/audio_single_pwm_1.0/hdl/audio_single_pwm_v1_0_M00_AXI.vhd:504-701 | for every N and every initial contents a test started at reset ends in cycle 12N + 5 with that verdict |
| `Pwm.CntDiv.Clock` | system/ip/audio_single_pwm_1.0/hdl/cnt_div.vhdl:34-59 | one edge of the reloading divider |
| `Pwm.PulseGen.Clock` | system/ip/audio_single_pwm_1.0/hdl/pulse_gen.vhdl:34-65 | one edge of the retriggerable pulse generator; the output latches while disabled |
| `Pwm.PwmTop.Play` | system/ip/audio_single_pwm_1.0/hdl/audio_single_pwm_v1_0.vhd:270-293 | for any register writes and any number of cycles the output from a trigger on is the period-wise wave |
| `Pwm.OutputsAreWave` | system/ip/audio_single_pwm_1.0/hdl/cnt_div.vhdl:34-59 | the two counters refine a description without counters: whole periods of the values sampled at each trigger |
| `Pwm.OutputsAfterReset` | system/ip/audio_single_pwm_1.0/hdl/cnt_div.vhdl:36-38 | after reset: silence for period - 1 cycles, then the wave |
| `Pwm.PeriodExact` | system/ip/audio_single_pwm_1.0/hdl/pulse_gen.vhdl:34-65 | the next trigger comes exactly max(P, 1) cycles later; the output is high for exactly min(D + 1, max(P, 1)) of them, none when D = 0 |
| `Pwm.MidPeriodWritesIgnored` | system/ip/audio_single_pwm_1.0/hdl/audio_single_pwm_v1_0.vhd:270-293 | writes between two triggers change nothing before the second |
| `AudioTop.Top.Clock` | system/ip/audio_single_pwm_1.0/hdl/audio_single_pwm_v1_0.vhd:199-299 | slave and PWM on one clock: the PWM sees the registers as they were before the edge, and the inverted bus reset |
| `AudioTop.Top.Play` | system/ip/audio_single_pwm_1.0/hdl/audio_single_pwm_v1_0.vhd:199-299 | any number of edges, resets among them: the samples are those of the reference |
| `AudioTop.SpeakerPlaysWave` | system/ip/audio_single_pwm_1.0/hdl/audio_single_pwm_v1_0_S00_AXI.vhd:539-540 | out of reset, under any bus traffic, the speaker plays whole periods of the values the registers held at each trigger |
| `AudioTop.PwmFromBus` | system/ip/audio_single_pwm_1.0/hdl/audio_single_pwm_v1_0_S00_AXI.vhd:539-540 | in every run the period is the low 24 bits of the word at byte address 8 and the duty those of the word at 12, as the accepted writes left them |
| `AudioTop.WritesPlayTone` | system/ip/audio_single_pwm_1.0/hdl/audio_single_pwm_v1_0_S00_AXI.vhd:539-540 | after a write of P to address 8 and of D to address 12 the speaker is high in sample j from the next trigger exactly when D > 0 and j mod max(P, 1) <= D, for ever |
| `AudioTop.ResetSilences` | system/ip/audio_single_pwm_1.0/hdl/audio_single_pwm_v1_0.vhd:299 | one edge in reset silences the speaker until something is written again |

## Left out

- XcanTxDriver.TxDriver.StartXmit: that a frame's echo can be found again when tx_max does not divide 2^32; EchoLossExactly shows that it can then be lost.
- XcanTxProtocol.Accounting: says nothing of SMP, where the wake at line 890 races with a transmit, nor of what happens across a reset, restart, reopen, suspend or resume, which do not reset the counters.
- XcanRxDriver.RxDriver.RxPoll: the timestamp put beside each frame is in XcanTimestamp alone, and reads of IER are not steps of their own (both writers set the receive bits outright).
- XcanRxProtocol.DeliveredUnderInterference: counts actions of the poll while allocations succeed and quotas are positive; that NAPI runs a poll it has scheduled is taken for granted.
- XcanTimestamp.LiveAgainstComment: needs a frequency for which the comment's scale and the code's agree on a rollover; CommentMatchesExactly shows that it fails for every other one.
- XcanResources.Interface.Open: the chip's own configuration state after a failed start, and what a handler does that runs while the interrupt is registered and the clocks are off.
- XcanTxStall.QueueCanStall: how a stalled queue might be restarted from outside (a reset or a reopen).
- Error and state interrupts, bit timing, the hwtstamp ioctls and the disabled timestamp branch: each is settled by reading one branch.
- Statistics, LED events, the network core behind the echo and receive calls: they do not feed back into this state.
- AXI masters with several requests outstanding and start pulses during a test: the slave's comments expect neither overlapping reads nor writes, and the master's registers would be cleared in mid-transaction.
- Address widths of the slave beyond six bits, AWPROT and ARPROT: not used by the code.
- The other IP cores, the CAN crossbar, the test scripts and the build files.
