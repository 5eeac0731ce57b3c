# Verified models of the Seoul virtual machine monitor

Seoul is an x86 virtual machine monitor written in C++. This project models the parts of it whose
correctness is hardest to see from the code, and proves what they keep over every run or every
input. `dafny verify dfyconfig.toml` checks all of it.

The project covers five groups of components.

* **Interrupt delivery.** The local APIC accepts, prioritises and nests vectors (`LapicSpec`,
  `Lapic`). The I/O APIC latches level interrupts until their EOI (`IoApic`), and its messages reach
  the local APIC through the MSI window (`Msi`). `Routing` joins them into one machine in which an
  EOI travels over the pins one step at a time, and shows that a level interrupt is always in exactly
  one place. `ServiceStack` shows on the same machine that the interrupts in service are a stack, also in
  the middle of an EOI, and `PinHistory` says which messages and reports the I/O APIC sends in terms of what
  was done to its pins. `InterruptLine` and `LocalSources` are about the line to the processor and the sources of
  the local APIC. `Pic8259` is the older controller with rotating priorities.
* **The VCPU event word.** `VcpuWakeup` interleaves the atomic accesses of the VCPU and of any number
  of notifying threads.
* **Time.** `Calendar` converts between seconds and dates, `RtcRegisters` and `Rtc` hold them in the
  clock chip's registers, `LapicTimer` is the counter of the local APIC, `TimeoutList` the sorted ring
  of timeouts, `Arithmetic` the 64-bit scaling of clocks.
* **Allocators and caches.** `RegionList` is an interval map in an array, `UsageList` and `MemCache`
  are the sets of the memory cache, `WriteBack` and `WriteBuffers` its write-back buffers.
* **Data movement.** `Packet` and `Segmentation` cut a TCP packet into segments in place, `Dma` is
  scatter and gather, `AtomicLifo` the lock-free list.

Code that works in place is a class or a method over arrays, proved against a function on values;
the main results are lemmas about that function. `Calendar` is in the file `Time.dfy`; every other
module is in the file of its name. `Common` holds types and arithmetic that several modules share,
and `Multiples` products and quotients by repeated addition and subtraction.

Integers are unbounded. Where a width matters it is written out: 64-bit seconds and day counts, 32-bit
years, 16- and 32-bit header fields, 64-bit virtual and physical addresses of regions, partial
products. Clocks, the buses, the checksum of a byte range and the answers of the memory region bus are
parameters.

Where the code and its own documentation or intent disagree, the model follows the code, and a lemma
gives the exact condition:

* `muldiv128` documents a bound on factor and divisor alone that does not exclude an overflow. It is
  exact for one value iff a carried sum fits, and for all values iff factor + divisor minus their
  greatest common divisor is at most 2^32 (`Arithmetic.MulDivExact`, `Arithmetic.AlwaysExactIff`,
  `Arithmetic.DocumentedBoundIsTooWeak`).
* `RegionList::del` compares with the end of a range modulo 2^64. It removes a range that reaches the end of the
  address space iff nothing of it is mapped. `add` gives such a region the right translation all the same, unless it
  joins it to the whole address space, whose size is no 64-bit number; but the list then is no list of disjoint
  regions with representable ends any more (`RegionList.DelRemovesIff`, `RegionList.LastPageStays`,
  `RegionList.RegionArray.Add`).
* `RegionList::del` splits a region when it is asked to remove an empty range strictly inside of it. In all other
  cases regions that could not be merged before cannot be merged afterwards (`RegionList.DelKeepsCoalesced`).
* `RegionList::alloc` accepts exactly the regions into which a request fits unless an address minus its
  offset goes below zero (`RegionList.AcceptedIffPlaceable`, `RegionList.UnderflowExample`).
* `RegionList::alloc` reports a failure with 0, which is also the address of a range that begins at 0. The
  answer is 0 iff nothing fits or the best fit begins at 0 and is used from its begin on; if no region
  begins at 0, it means failure (`RegionList.ZeroOfBestFit`, `RegionList.ZeroMeansFailure`,
  `RegionList.ZeroAnswerExample`).
* A second read of the timer at the same instant changes and fires nothing unless the first one moves the start
  to exactly 0, which stands for a stopped timer. That is so iff the start lies after now, now lies in the first
  period of the clock, and the start is a whole number of periods before 2^64; no run of reads, initial-count
  writes and divider writes gets there, unless a divider write at instant 0 finds no count left
  (`LapicTimer.ReadIsIdempotent`, `LapicTimer.MovesTo0Iff`, `LapicTimer.SecondReadDiffers`,
  `LapicTimer.ReadsAlikeOverAllRuns`, `LapicTimer.DividerMakesGoodIff`).
* A change of the timer's divider keeps the count of a running timer unless the ticks done are exactly the
  current time, which stops it, or do not fit 64 bits; it rearms a one-shot timer that has expired
  (`LapicTimer.DividerKeepsCount`, `LapicTimer.DividerStopsTimer`, `LapicTimer.ExpiredTimerFiresAgain`).
* The memory cache says that an evicted dirty buffer is the oldest write; that holds exactly while the
  dirty buffers were last used in the order of their writes. A write that finds a buffer is never put on
  the dirty list, so that a read followed by a write of the same key issues no write
  (`WriteBack.NothingLostIffInUseOrder`, `WriteBack.ServedKeepsInvIffSafe`, `WriteBack.ReadOfOlderWrite`,
  `WriteBack.WriteAfterRead`).
* The length field of an IPv6 segment is written like that of an IPv4 segment, with the IP header
  counted; section 3 of RFC 8200 does not count it (`Segmentation.LengthField`).
* A message from elsewhere with the vector of a level interrupt keeps the interrupts accounted for iff it is
  level triggered and leaves the pending bit as it is (`Routing.MessageKeepsInvIff`,
  `Routing.SharedVectorStrandsToken`). An edge-triggered pin does iff what arrives of it, if anything, has no vector
  of a level pin (`Routing.EdgeKeepsInvIff`). A guest write of the I/O APIC's EOI register does iff no interrupt
  of that vector is under way (`Routing.EoiRegisterKeepsInvIff`).
* Setting the lowest priority of the 8259 keeps the lines in service nested iff it does not part them; the
  rotation of a non-specific EOI always does (`Pic8259.RotationKeepsNestingIff`,
  `Pic8259.RotationOnEoiKeepsNesting`, `Pic8259.RotationBreaksNesting`).
* The local APIC does not report to the processor what it finds out by a write of the task priority, an INTA that is
  left to the PIC, or a masked EXTINT. The interrupt line is right over all runs in which none of them changes it, and
  a pending vector goes unreported when the processor lowers its task priority below it
  (`InterruptLine.ReportedIff`, `InterruptLine.ReportedOverAllRuns`, `InterruptLine.LoweredPriorityIsNotReported`).
* The test for the periodic flag of the RTC looks at the position in the second only. It is right inside of one
  second; over a full second it may miss the middle of a period, and at the begin of a second it may see one that
  was not passed (`Rtc.PeriodicFlagIff`, `Rtc.PeriodicFlagInSecond`, `Rtc.PeriodicFlagExamples`).
* A scatter/gather copy fails at an empty descriptor outside of memory although it moves no byte there
  (`Dma.SucceedsIff`, `Dma.EmptyDescriptorStopsCopy`).
* What is copied out and in again through the same descriptors comes back for all data iff no two of them
  overlap (`Dma.RoundTrip`, `Dma.AllReturnIffDistinct`, `Dma.DistinctIffNoOverlaps`).
* The range test of the I/O APIC's data register lets 15 registers through that belong to no redirection entry
  (`IoApic.TestOfRegisters`).

## Model

| member | source | states |
|---|---|---|
| Routing.TokensOverAllRuns | model/ioapic.cc:131-170 | in every reachable state of the joined machine a level pin's remote IRR is set exactly while its interrupt is in exactly one of IRR, ISR (with TMR set) or an EOI on its way, and otherwise it is in none; the runs have fixed programming, all messages, edge pins and EOI register writes that satisfy the guards of `MessageKeepsInvIff`, `EdgeKeepsInvIff` and `EoiRegisterKeepsInvIff` |
| Routing.NoSecondMessageBeforeEoi | model/ioapic.cc:131-170 | between two messages of a level pin there is always an EOI of its vector that reaches the pin |
| Routing.SendMakesToken | model/ioapic.cc:131-158 | a message of a level pin is sent only while its interrupt is nowhere, and sets the remote IRR |
| Routing.OnlyEoiClears | model/ioapic.cc:164-170 | the only step of such runs that clears a remote IRR is the broadcast EOI of the pin's own vector reaching this pin |
| Routing.StepKeepsInv | model/lapic.cc:319-345 | every enabled step of pins, registers, local APIC and EOI keeps the token invariant |
| Routing.IntaStep | model/lapic.cc:585-606 | INTA moves a token from the IRR to the ISR and duplicates none |
| Routing.EoiStartStep | model/lapic.cc:390-403 | the EOI write moves the token of the vector in service onto its way back |
| Routing.EoiPinStep | model/ioapic.cc:164-170 | an EOI that reaches its pin takes the token back, and leaves other pins alone |
| Routing.EoiFinishStep | model/lapic.cc:390-403 | rearming the timer and rescanning the ISR keep all tokens |
| Routing.PinStep | model/ioapic.cc:131-158 | asserting or deasserting a pin in any mode creates one token or none; of an edge pin this needs that what arrives has no vector of a level pin |
| Routing.EdgeKeepsInvIff | model/ioapic.cc:131-158 | asserting an edge pin keeps the token invariant iff it is masked, or what arrives at the local APIC has no vector of a level pin |
| Routing.WriteStep | model/ioapic.cc:93-111 | writing half of a redirection entry, with its retrigger on unmasking, keeps all tokens |
| Routing.SharedVectorStrandsToken | model/lapic.cc:319-345 | if an edge message arrives with the vector of a level interrupt in service, the accounting is broken, the EOI is not broadcast and the pin stays blocked |
| Routing.MessageKeepsInvIff | model/lapic.cc:319-328 | a message to the local APIC keeps the token invariant iff, should its vector be that of a level pin, it is level triggered and its value is the pending bit |
| Routing.EoiRegisterKeepsInvIff | model/ioapic.cc:209-212 | a guest write of the EOI register keeps the token invariant iff no level pin with that vector has its remote IRR set |
| Routing.DirectedEoi | model/lapic.cc:340-344 | with broadcasts suppressed an EOI reaches no pin, and the remote IRR is set until the vector is written to the EOI register of the I/O APIC |
| Routing.EventIsDelivered | model/lapic.cc:570-578 | a pin with the mode SMI, NMI, INIT or EXTINT reaches the processor as that event |
| Routing.EoiPinsClear | model/ioapic.cc:164-170 | the EOI loop clears exactly the remote IRRs of its vector |
| Routing.ServiceReached | model/lapic.cc:585-606 | from every start with an open level pin the state in which an interrupt can be stranded is reached by asserting the pin and one INTA |
| Routing.ExampleIsReady | model/ioapic.cc:176-191 | there is such a start |
| PinHistory.SendsIff | model/ioapic.cc:93-158 | over all runs, whatever is programmed, a message of a pin is sent iff the open pin is asserted with no interrupt under way, or its entry is written open and level while an interrupt waits: one that was asserted while the pin was masked, and since then neither deasserted, sent nor lost to an edge entry; it is the message of the entry as it is then |
| PinHistory.LatchedIffWaits | model/ioapic.cc:131-158 | the delivery status holds exactly the interrupts that wait |
| PinHistory.UnmaskingSends | model/ioapic.cc:93-158 | a masked level pin that is asserted and then unmasked sends one message then, and none if it was deasserted before |
| PinHistory.OthersSendNothing | model/ioapic.cc:164-170 | no other step sends a message |
| PinHistory.AnnouncesIff | model/ioapic.cc:93-170 | over all runs a pin is reported iff an edge interrupt that asks for it is delivered, its entry is written open while nothing waits, or the EOI of an interrupt that asked for it arrives |
| PinHistory.WrittenEntry | model/ioapic.cc:93-97 | the half of an entry that is written gets its writable bits, all others stay |
| ServiceStack.ServiceOverAllRuns | model/lapic.cc:390-403 | over all runs of pins, register writes, messages, local sources, INTA, INIT and EOI, whatever is programmed and with the devices acting in the middle of an EOI, the ISR is a stack of vectors in strictly rising priority classes, of at most 15, and `_isrv` is its top or, with an EOI under way, the vector that it retires |
| ServiceStack.StepKeepsService | model/lapic.cc:390-403 | every such step keeps this for the stack it leaves |
| ServiceStack.EoiRetiresTop | model/lapic.cc:390-398 | an EOI carries and pops the vector taken into service last |
| LapicSpec.StackOverAllRuns | model/lapic.cc:250-284 | over all sequences of operations of the local APIC alone, the errors of IPIs and register accesses among them and an EOI as one operation, the ISR and `_isrv` are such a stack |
| LapicSpec.StepKeepsStack | model/lapic.cc:319-345 | every operation (messages, errors, LVT, INTA, EOI, register writes, INIT) keeps ISR and `_isrv` equal to the stack it leaves |
| LapicSpec.IntaPushes | model/lapic.cc:585-606 | INTA pushes the vector it takes, or leaves the stack alone |
| LapicSpec.EoiPops | model/lapic.cc:390-403 | EOI pops exactly the vector taken into service last |
| LapicSpec.TakenIff | model/lapic.cc:271-284 | a vector is chosen iff no EXTINT is pending and it is the highest of the IRR, in a priority class above the TPR and above all vectors in service |
| LapicSpec.ExtIntIff | model/lapic.cc:274-279 | an EXTINT is chosen iff it is the first one pending in the LVT |
| LapicSpec.RaisedIffWaiting | model/lapic.cc:290-300 | `update_irqs` raises the line iff an EXTINT or such a vector is waiting |
| LapicSpec.IntaAnswers | model/lapic.cc:585-606 | an INTA is left to the PIC iff an EXTINT is pending, and else answered with the vector that can be taken, or the spurious vector iff there is none |
| LapicSpec.PendingVector | model/lapic.cc:271-284 | the vector taken is the highest of the IRR, in a class above the TPR and above all in service |
| LapicSpec.NestingBound | model/lapic.cc:250-284 | at most 15 interrupts nest |
| LapicSpec.TopIsHighest | model/lapic.cc:390-403 | the highest vector in service, 0 if there is none, is the top of the stack |
| LapicSpec.AcceptLeavesAlone | model/lapic.cc:306-328 | accepting a vector, with the errors it may cause, changes nothing for any vector that is neither it nor in the LVT |
| LapicSpec.ErrorLeavesAlone | model/lapic.cc:306-314 | the same for reporting an error |
| LapicSpec.TriggerLeavesAlone | model/lapic.cc:431-476 | the same for triggering a local source |
| InterruptLine.ReportedIff | model/lapic.cc:290-300 | an operation keeps the line equal to whether something is waiting iff it is not a TPR write that changes it, an INTA that takes the last EXTINT with no vector waiting, or a masked or blocked source that latches the first EXTINT |
| InterruptLine.ReportedOverAllRuns | model/lapic.cc:290-300 | over all runs without such operations the line is raised iff something is waiting |
| InterruptLine.LoweredPriorityIsNotReported | model/lapic.cc:290-300 | a run after which a vector can be taken and the line is low |
| InterruptLine.TriggerReportsIff | model/lapic.cc:431-476 | a local source keeps the line right iff it does not only latch an EXTINT |
| LocalSources.OpenSourceDelivers | model/lapic.cc:431-467 | an open source with a fixed vector makes exactly this vector pending with its trigger mode, is blocked if it is level triggered, and masked if it is the performance counter |
| LocalSources.EventSourceSends | model/lapic.cc:463-475 | a source with the mode SMI, NMI or INIT sends that event, others are dropped |
| LocalSources.LatchedSourceDelivers | model/lapic.cc:419-450 | a level source that was triggered while masked is delivered when its entry is written open |
| LocalSources.LegacyLintDelivers | model/lapic.cc:682-686 | so is the legacy interrupt on LINT0 |
| LocalSources.DeassertedLintStaysIdle | model/lapic.cc:687-690 | it is not if it went away before |
| LocalSources.EoiUnblocks | model/lapic.cc:337-338 | a blocked source is unblocked iff it is LINT0 or LINT1 and the EOI of its level-triggered vector comes |
| LocalSources.LintDeliversAgain | model/lapic.cc:337-338 | after that it is delivered again |
| LocalSources.ExpiredTimerIsDelivered | model/lapic.cc:397-398 | the EOI of the timer vector delivers it again iff the timer has expired |
| LocalSources.ErrorIsDelivered | model/lapic.cc:306-314 | an error is recorded and delivered once |
| LocalSources.ErrorIsDeliveredAgain | model/lapic.cc:306-314 | and again after a write of the error register |
| LocalSources.ReservedVectorIsError | model/lapic.cc:319-328 | a reserved vector is recorded as an error and not accepted |
| LocalSources.DisablingMasksAll | model/lapic.cc:411-416 | disabling the APIC by software masks all sources |
| LocalSources.DisabledStaysMasked | model/lapic.cc:384-384 | while it is disabled no write opens a source |
| LocalSources.InitKeepsLint0 | model/lapic.cc:77-100 | INIT resets all registers to their initial values and masks all sources; only the level of LINT0 is kept, which is delivered after it is opened iff it was there |
| Lapic.LocalApic.GetHighestBit | model/lapic.cc:250-256 | the scan over eight words finds the greatest vector of a bit field, 0 for an empty one |
| Lapic.LocalApic.BitScanReverse | model/lapic.cc:250-256 | the highest bit of one word |
| Lapic.LocalApic.ProcessorPrio | model/lapic.cc:261-265 | the PPR of the abstract state |
| Lapic.LocalApic.PrioritizeIrq | model/lapic.cc:271-284 | the pending decision of the abstract state: with an up-to-date cached vector, v is chosen iff no EXTINT is pending and v can be taken |
| Lapic.LocalApic.UpdateLine | model/lapic.cc:290-300 | the line is raised iff something is waiting |
| Lapic.LocalApic.ReportError | model/lapic.cc:306-314 | the bit fields and registers refine the error step, recursion included |
| Lapic.LocalApic.Accept | model/lapic.cc:319-328 | the bit fields refine the acceptance of a vector |
| Lapic.LocalApic.BroadcastEoi | model/lapic.cc:333-345 | clears the ISR bit and broadcasts exactly the level-triggered vectors |
| Lapic.LocalApic.WriteEoi | model/lapic.cc:390-403 | the bit fields refine the EOI, with its broadcast |
| Lapic.LocalApic.Trigger | model/lapic.cc:431-476 | the bit fields refine the triggering of a local source in every delivery mode |
| Lapic.LocalApic.IntaCycle | model/lapic.cc:585-606 | the bit fields refine INTA; the value is none iff an EXTINT is pending, the vector that can be taken, or the spurious vector iff there is none |
| IoApic.Device.constructor | model/ioapic.cc:176-191 | all pins masked, with no latched, in-flight or announced interrupt |
| IoApic.Device.WriteData | model/ioapic.cc:93-117 | the registers refine a write of half an entry, with its retrigger and notification; other registers leave the entries alone |
| IoApic.TestOfRegisters | model/ioapic.cc:94-94 | a register that passes the range test has an entry iff it is below 0x40 |
| IoApic.Device.AssertPin | model/ioapic.cc:131-158 | the registers refine `pin_assert` for every trigger type; handled iff the pin exists |
| IoApic.Device.Eoi | model/ioapic.cc:164-170 | the loop refines the EOI of all 24 pins |
| IoApic.Device.SendNotify | model/ioapic.cc:119-126 | a pin is announced once until it is asserted again |
| Msi.EntryArrives | model/msi.cc:34-57 | a redirection entry passes through the MSI window with its vector, trigger mode, destination mode and 16-bit destination |
| Msi.LevelEntryArrives | model/lapic.cc:482-511 | a level entry aimed at the APIC arrives there as its vector, level triggered and asserted |
| Msi.ArrivesIff | model/lapic.cc:562-580 | what arrives of any entry: nothing iff it is not aimed at the APIC or has a mode that is not allowed, and else its vector, trigger mode and level, or its event |
| Msi.PhysicalMode | model/lapic.cc:498-504 | a physical destination is accepted iff it is the ID or all ones |
| Msi.FlatMode | model/lapic.cc:507-507 | in the flat model a logical destination is accepted iff it shares a bit with the logical ID |
| Msi.ClusterMode | model/lapic.cc:510-510 | in the cluster model it is accepted iff the clusters are the same and the rest shares a bit |
| Msi.X2ApicMode | model/lapic.cc:487-496 | in x2APIC mode a physical destination is the full ID or all ones, and a logical one is matched with the logical ID |
| Msi.SameCluster | model/lapic.cc:495-495 | they match iff the clusters are the same and the rest shares a bit |
| Msi.ClusterAndBit | model/lapic.cc:71-71 | the logical ID has the cluster of the initial ID in its upper half and one bit in its lower half |
| Msi.EntryKeepsVector | model/ioapic.cc:147-153 | whatever arrives from an entry has the vector of the entry |
| Msi.ForwardKeepsVector | model/msi.cc:34-57 | whatever is forwarded keeps the vector byte |
| Msi.ForwardsIff | model/msi.cc:34-57 | exactly the writes to the window whose delivery mode is allowed are forwarded |
| Pic8259.NestingOverAllRuns | model/pic8259.cc:72-85 | from reset, in all runs in normal mode with all OCW2 commands that do not part the lines in service, these lines nest and EOIs retire them from the innermost one on |
| Pic8259.AcknowledgedIffHighest | model/pic8259.cc:109-144 | in every mode and under any rotation a line is acknowledged iff it requests, is not masked, precedes all other such lines, and precedes all lines in service but those that special mask or special fully nested mode lets pass |
| Pic8259.ScanFinds | model/pic8259.cc:109-144 | what the scan finds from any place on |
| Pic8259.EoiFinds | model/pic8259.cc:74-85 | in every mode the EOI scan finds the line of the highest rank that may be retired, in special mask mode a masked one, and none iff there is none |
| Pic8259.EoiFindsHighest | model/pic8259.cc:74-85 | outside of special mask mode that is the highest line in service |
| Pic8259.EoiPops | model/pic8259.cc:74-85 | non-specific EOI retires the line acknowledged last |
| Pic8259.AckPushes | model/pic8259.cc:109-144 | acknowledging pushes the line |
| Pic8259.AcknowledgedLine | model/pic8259.cc:131-133 | the line acknowledged goes into service and stays pending iff it is level triggered; no other line changes |
| Pic8259.AcknowledgedAgainIffLevel | model/pic8259.cc:131-133 | after its EOI it is acknowledged again iff it is level triggered |
| Pic8259.AutomaticEoi | model/pic8259.cc:134-138 | with automatic EOI the lines in service stay as they were, and the priorities rotate iff that is set |
| Pic8259.RotationOnAutomaticEoi | model/pic8259.cc:278-279 | the command decides whether the next automatic EOI rotates the priorities |
| Pic8259.MaskHides | model/pic8259.cc:311-311 | a masked line is not acknowledged; masking other lines does not stop the highest one |
| Pic8259.TriggerModeCounts | model/pic8259.cc:254-255 | a line is acknowledged again after its EOI iff the trigger modes written last make it level triggered |
| Pic8259.RotationMovesUp | model/pic8259.cc:72-72 | rotation makes the first line the last one and moves all others up; after reset line 0 is the first |
| Pic8259.Ocw2KeepsValid | model/pic8259.cc:265-280 | every OCW2 command keeps the registers valid and never adds to the ISR |
| Pic8259.RotationBreaksNesting | model/pic8259.cc:265-280 | from reset, two lines in service and a set-priority command between them: EOI then retires the outer one |
| Pic8259.CommandKeepsNestingIff | model/pic8259.cc:265-280 | non-specific EOI pops the stack, specific EOI takes its line out, with or without rotation, and what is left is nested iff a new lowest line does not part it |
| Pic8259.RotationKeepsNestingIff | model/pic8259.cc:270-270 | a new lowest line keeps the lines in service nested iff there are no two of them, one up to it and one behind it in the old order |
| Pic8259.RotationOnEoiKeepsNesting | model/pic8259.cc:273-277 | rotation on a non-specific EOI never breaks nesting |
| Pic8259.SpecificEoiRemoves | model/pic8259.cc:269-269 | specific EOI takes its line out of the stack, wherever it is |
| Pic8259.RetiresInOrderIffNested | model/pic8259.cc:74-85 | successive non-specific EOIs retire the lines in the reverse order of a stack iff the stack is nested |
| Pic8259.Pic.PrioritizeIrq | model/pic8259.cc:109-144 | the loop refines the scan and the acknowledge, AEOI and rotation on AEOI included |
| Pic8259.Pic.EndOfInterrupt | model/pic8259.cc:74-85 | the loop refines non-specific EOI, special mask mode included |
| Pic8259.Pic.WriteOcw2 | model/pic8259.cc:265-280 | whatever stack was in service, after any OCW2 command the stack it should leave is nested iff the command does not part it |
| VcpuWakeup.NoLostWakeup | model/vcpu.cc:315-339 | in no interleaving does the VCPU sleep on an empty semaphore with an unread event, unless a notifier is still about to post, even if the host posts only on a seen STATE_BLOCK |
| VcpuWakeup.SleeperCanWake | model/vcpu.cc:455-460 | from every reachable state with a sleeping VCPU and an unread event there is a continuation in which it examines the events |
| VcpuWakeup.WakesWithTicket | model/vcpu.cc:455-460 | with a ticket the VCPU wakes and reads everything raised |
| VcpuWakeup.RaisedIsReadOrReadable | model/vcpu.cc:315-339 | in every run, a bit that a thread has raised and that was not taken back since has been read by the VCPU, or is read after some steps of the VCPU and of threads that are under way already |
| VcpuWakeup.RaisedCanBeRead | model/vcpu.cc:315-339 | from every such state some continuation reads the bit, even if it was read and left before |
| VcpuWakeup.EventIff | model/vcpu.cc:315-334 | a bit is in the event word after a step iff the step raises it, or it was there and the step neither clears it nor is a deassert of INTR |
| VcpuWakeup.CallAlone | model/vcpu.cc:315-339 | a call of `got_event` that is not interrupted records its bits, wakes the VCPU and claims or empties the SIPI field, unless all bits are there already or it is a SIPI that nobody waits for |
| VcpuWakeup.TicketsConserved | model/vcpu.cc:337-338 | in every run the semaphore was posted exactly as often as the VCPU was woken by it plus the tickets left |
| VcpuWakeup.InitBetweenSipis | model/vcpu.cc:315-339 | between two accepted SIPIs there is always an INIT, and one before the first |
| VcpuWakeup.InvOverAllRuns | model/vcpu.cc:455-460 | the sleep and SIPI invariants hold in every reachable state |
| VcpuWakeup.StepKeepsSleepInv | model/vcpu.cc:197-199 | each atomic access keeps the sleep invariant |
| VcpuWakeup.StepKeepsSipiLog | model/vcpu.cc:315-339 | each atomic access keeps the SIPI log alternating |
| Calendar.GmTimeThenMkTime | include/service/time.h:42-99 | `mktime(gmtime(s)) == s` for every s whose year fits |
| Calendar.MkTimeThenGmTime | include/service/time.h:42-99 | `gmtime(mktime(tm))` is tm with correct weekday and day of year, for every valid time from 1970 on whose year fits |
| Calendar.GmTime | include/service/time.h:58-99 | the result is the valid date that a reference calendar, counting year by year and month by month, assigns to the seconds |
| Calendar.MkTimeCountsSeconds | include/service/time.h:42-48 | the closed formula counts the seconds of the reference calendar, modulo 2^64 before 1970 |
| Calendar.MkDaysFitsInt | include/service/time.h:45-45 | the exact year up to which the day count fits a signed 32-bit value |
| Calendar.YearOfDay | include/service/time.h:58-86 | the year and the day in it, over the 400-, 100-, 4- and 1-year cycles |
| Calendar.CyclesOfDay | include/service/time.h:58-86 | the decomposition of a day in a 400-year cycle, with both corrections |
| Calendar.CycleDecomposition | include/service/time.h:58-86 | the cycles name the year that the reference calendar gives, and the day lies in it |
| Calendar.MonthOfDay | include/service/time.h:86-99 | the month and day of month |
| Calendar.MonthEstimate | include/service/time.h:86-99 | the estimate day/31 is the right month or the one before it |
| Calendar.MonthTableIsSum | include/service/time.h:58-99 | the month tables are the sums of the month lengths |
| Calendar.YearsClosedForm | include/service/time.h:40-48 | days before a year in closed form |
| Calendar.DayNumberInjective | include/service/time.h:40-48 | distinct valid dates have distinct day numbers |
| Calendar.YearBounds | include/service/time.h:42-48 | the range of seconds is exactly the range of years |
| RtcRegisters.NextAlarm | model/rtc146818.cc:183-240 | the least second strictly after s that matches the alarm, for all eight wildcard combinations, and ~0 exactly for invalid alarms |
| RtcRegisters.NextAlarmIsLeast | model/rtc146818.cc:213-240 | the arithmetic over period, start and subrange yields that second |
| RtcRegisters.ChosenIsFirst | model/rtc146818.cc:213-240 | the offset chosen is the first of the pattern that is not before now |
| RtcRegisters.MatchesByOffset | model/rtc146818.cc:183-240 | matching hour, minute and second is a condition on the offset in the period |
| RtcRegisters.GatherAlarm | model/rtc146818.cc:183-212 | the loop gathers wildcards and start, and detects exactly the invalid alarms |
| RtcRegisters.FindAlarm | model/rtc146818.cc:213-240 | the part after the loop |
| RtcRegisters.AlarmPassed | model/rtc146818.cc:246-270 | the next alarm is at most now iff a matching second was passed |
| RtcRegisters.BcdRoundTrip | include/service/bcd.h:21-22 | BCD round trip |
| RtcRegisters.ConvertRoundTrip | model/rtc146818.cc:71-87 | register round trip in BCD and binary mode |
| Rtc.RunCycles | model/rtc146818.cc:246-270 | over any sequence of update cycles the time advances by exactly the elapsed seconds and the alarm flag is raised iff a matching second passed, however often the clock is polled |
| Rtc.Rtc146818.UpdateCycle | model/rtc146818.cc:246-270 | one cycle in all modes: time, alarm, update and periodic flags, SET and divider reset |
| Rtc.PeriodicFlagIff | model/rtc146818.cc:255-258 | the periodic flag is raised iff the counter has passed the middle of a period since the last cycle, exactly unless the positions in the second mislead: equal between two middles after a new second, or before the first middle after having been behind the last one of the second before |
| Rtc.PeriodicFlagInSecond | model/rtc146818.cc:255-258 | in particular inside of one second |
| Rtc.PeriodicFlagExamples | model/rtc146818.cc:255-258 | a second in which it is missed, and a tick in which it is raised for nothing |
| Rtc.PeriodicRates | model/rtc146818.cc:108-118 | the periods of all rates of register A |
| Rtc.Rtc146818.NextSecond | model/rtc146818.cc:259-267 | the part of the cycle when the second changes |
| Rtc.Rtc146818.UpdateRam | model/rtc146818.cc:155-177 | after storing s, reading the registers gives s, for years 1970 to 9999 in all register modes |
| Rtc.Rtc146818.WriteHour | model/rtc146818.cc:155-177 | the hour register in 12- and 24-hour format |
| Rtc.Rtc146818.SetIrqFlags | model/rtc146818.cc:124-134 | bit 7 summarises the enabled flags and its changes drive the line |
| Rtc.Rtc146818.RaiseFlag | model/rtc146818.cc:124-134 | raising one flag leaves the other two alone |
| Rtc.EncodedTimeReadsBack | model/rtc146818.cc:139-150 | a time encoded in any of the four modes reads back as its seconds |
| Rtc.HourRoundTrip | model/rtc146818.cc:71-87 | the hour reads back in BCD or binary, 12 or 24 hours |
| LapicTimer.PhaseOverAllReads | model/lapic.cc:155-175 | reads at any 64-bit instants move the start of a periodic timer by whole periods only, modulo 2^64, to the period of the last read |
| LapicTimer.PhaseKept | model/lapic.cc:155-175 | one read moves the start by whole periods, modulo 2^64 |
| LapicTimer.RisingReadsKeepRunning | model/lapic.cc:155-175 | reads at rising instants never stop a periodic timer that is good, that is whose start is not after now or less than one period before 2^64, and the last of them can be repeated |
| LapicTimer.ReadIsIdempotent | model/lapic.cc:155-175 | a second read at the same instant changes and fires nothing iff the timer is not a running periodic one whose start lies after now, with now in the first period and the start a whole number of periods before 2^64 |
| LapicTimer.MovesTo0Iff | model/lapic.cc:163-172 | a read that moves the start moves it to 0 iff that is so |
| LapicTimer.SecondReadDiffers | model/lapic.cc:155-175 | a timer whose second read at the same instant differs from the first |
| LapicTimer.ReadKeepsGood | model/lapic.cc:155-175 | a read keeps the timer good, and a periodic one running |
| LapicTimer.ReadsAlikeOverAllRuns | model/lapic.cc:155-185 | after any run of reads, initial-count writes and divider writes at rising instants from a good timer, reads at one instant can be repeated; a divider write at instant 0 with no count left is excluded |
| LapicTimer.DividerMakesGoodIff | model/lapic.cc:814-828 | the timer after a divider write is good iff the write is not at instant 0, there is no initial count, some count is left, or the new period does not fit 64 bits |
| LapicTimer.CountInPeriod | model/lapic.cc:155-175 | inside its period a timer reads its remaining count |
| LapicTimer.ReadingInTicks | model/lapic.cc:154-175 | a read fires iff ict * unit ticks have passed since the start, and else changes nothing; the count is the initial one minus the counts done in the current period, and a one-shot timer that fires stops |
| LapicTimer.TimeoutMeetsExpiry | model/lapic.cc:180-185 | the host waits at least until the period ends and less than one count longer; its timeout is that instant modulo 2^64 |
| LapicTimer.DividerKeepsCount | model/lapic.cc:814-828 | for every 64-bit instant, a divider change keeps the count and fires nothing iff there is no initial count, or a running timer's ticks done fit 64 bits and are not exactly now, or a stopped timer's ticks are exactly now |
| LapicTimer.ExpiredTimerFiresAgain | model/lapic.cc:814-828 | it rearms an expired one-shot timer, which fires at once iff its ticks fit 64 bits |
| LapicTimer.DividerStopsTimer | model/lapic.cc:814-828 | a running timer that a divider change stops |
| LapicTimer.DividerTable | model/lapic.cc:819-819 | the divide configuration register divides by 2, 4, 8, 16, 32, 64, 128 and 1 |
| LapicTimer.TimerRegisters.ReadCcr | model/lapic.cc:155-175 | the registers after a read of the counter |
| LapicTimer.TimerRegisters.UpdateTimer | model/lapic.cc:180-185 | the timeout programmed, if any |
| LapicTimer.TimerRegisters.WriteIct | model/lapic.cc:810-813 | a write of the initial count starts a full period now |
| LapicTimer.TimerRegisters.WriteDivider | model/lapic.cc:814-828 | a write of the divider |
| TimeoutList.TimeoutQueue.constructor | include/nul/timer.h:178-188 | an empty ring with all entries free |
| TimeoutList.TimeoutQueue.Request | include/nul/timer.h:145-162 | the timer moves to its place in the sorted queue, before those of the same timeout; the result says whether the head's timeout is unchanged |
| TimeoutList.TimeoutQueue.Cancel | include/nul/timer.h:128-139 | the timer leaves the queue, the others keep their order; all result codes |
| TimeoutList.TimeoutQueue.TriggerAll | unix/main.cc:327-342 | fires exactly the due timers, in the order of their timeouts, and leaves the others |
| TimeoutList.TimeoutQueue.Trigger | include/nul/timer.h:167-175 | the first timer iff it is due |
| TimeoutList.TimeoutQueue.Head | include/nul/timer.h:177-177 | the least timeout, or the sentinel's |
| TimeoutList.TimeoutQueue.Alloc | include/nul/timer.h:98-109 | the least free entry but the sentinel |
| TimeoutList.TimeoutQueue.Dealloc | include/nul/timer.h:114-123 | frees an entry in use, with or without its timeout |
| TimeoutList.TimeoutQueue.Scan | include/nul/timer.h:152-154 | the scan stops at the first timer that is not earlier |
| TimeoutList.UnlinkNext | include/nul/timer.h:135-137 | the forward links after removal form the ring without the entry |
| TimeoutList.UnlinkPrev | include/nul/timer.h:135-137 | the same for the backward links |
| TimeoutList.LinkNext | include/nul/timer.h:156-160 | the forward links after insertion form the ring with the entry |
| TimeoutList.LinkPrev | include/nul/timer.h:156-160 | the same for the backward links |
| TimeoutList.InsertedKeepsSorted | include/nul/timer.h:145-162 | insertion before the first timer that is not earlier keeps the queue sorted |
| Arithmetic.MulDivExact | include/service/math.h:40-49 | value * factor / divisor modulo 2^64 iff the carried sum does not overflow |
| Arithmetic.NoCarryForSmallFactors | include/service/math.h:36-49 | it does not overflow if factor and divisor together are at most 2^32 + 1 |
| Arithmetic.AlwaysExactIff | include/service/math.h:36-49 | all values are scaled exactly iff factor + divisor - gcd(factor, divisor) is at most 2^32 |
| Arithmetic.RemainderReached | include/service/math.h:45-45 | the largest remainder of the division of the high product is divisor - gcd, and some value has it |
| Arithmetic.DocumentedBoundIsTooWeak | include/service/math.h:36-49 | arguments below the documented bound with a wrong result |
| Arithmetic.LongDivision | include/service/math.h:29-49 | long division with a carried remainder |
| Arithmetic.DivideExact | include/service/math.h:40-49 | the division of the partial products is exact iff the carried sum fits |
| Arithmetic.CombineExact | include/service/math.h:45-49 | joining the quotients is exact iff the carried sum fits |
| RegionList.RegionArray.Del | include/nul/region.h:104-140 | the in-place loop leaves exactly the pieces of every region outside of the range, or everything if the range reaches the end of the address space |
| RegionList.DelRemovesIff | include/nul/region.h:107-107 | the range is removed from the map iff its end is below 2^64 or nothing of it is mapped |
| RegionList.LastPageStays | include/nul/region.h:107-107 | a mapping that is not removed |
| RegionList.DelRemovesRange | include/nul/region.h:104-140 | exactly the addresses of the range lose their translation, all others keep theirs |
| RegionList.DelKeepsWellFormed | include/nul/region.h:104-140 | regions stay non-empty and pairwise disjoint |
| RegionList.RegionArray.Add | include/nul/region.h:76-99 | exactly the addresses of the range get the new translation, through deletion and merging, iff the region is not joined to the whole address space; the list stays well-formed iff the end of the region is below 2^64; if no region continued another one, none does afterwards |
| RegionList.AddingMerges | include/nul/region.h:76-99 | joining a contiguous neighbour changes no translation and keeps the regions disjoint |
| RegionList.DelKeepsCoalesced | include/nul/region.h:104-140 | removing a range from regions none of which continues another one leaves such regions iff the range is not empty or is not strictly inside a region |
| RegionList.RegionArray.Alloc | include/nul/region.h:146-167 | an aligned range inside the first of the smallest regions that can hold it is taken out of the map, or nothing is taken iff no region can; the answer is 0 exactly in that case or if the range begins at 0 |
| RegionList.RegionArray.FindBest | include/nul/region.h:146-160 | the scan finds the first of the smallest regions that the test accepts |
| RegionList.AnswerOfScan | include/nul/region.h:146-167 | without underflow that region is the best fit and none is found iff nothing fits; with it the answer is 0 iff nothing fits or the best fit begins at 0 and is used from its begin on |
| RegionList.ZeroOfBestFit | include/nul/region.h:161-166 | a successful allocation answers 0 iff the best fit begins at 0 and its highest place is its begin |
| RegionList.ZeroMeansFailure | include/nul/region.h:161-166 | if no region begins at 0, the answer is 0 iff nothing fits |
| RegionList.ZeroAnswerExample | include/nul/region.h:161-166 | a request that is served and answered with 0 |
| RegionList.AcceptedIffPlaceable | include/nul/region.h:146-160 | the test of a region accepts iff the request fits, exactly unless the offset underflows |
| RegionList.HighestPlace | include/nul/region.h:146-160 | a request fits iff it fits at the highest aligned address |
| RegionList.UnderflowExample | include/nul/region.h:146-160 | a request for which the test is wrong |
| RegionList.RegionArray.Find | include/nul/region.h:54-60 | the scan finds the region of an address iff there is one |
| RegionList.UniqueCover | include/nul/region.h:54-60 | disjoint regions: whichever covers an address gives its translation |
| RegionList.TranslatesInOrder | include/nul/region.h:24-34 | address k of a region is translated to physical address k of the region, modulo 2^64 |
| MemCache.CacheSet.Get | executor/memcache.h:186-225 | whatever was asked before, there is a reference iff the access is contiguous and the region of its first page has memory for all of it, and every byte of the access is then at its place behind the reference; keys stay unique and the slot used becomes the newest |
| MemCache.DirectIsReference | executor/memcache.h:216-219 | the same for a lookup without the cache |
| MemCache.ReferencesKeepDistance | executor/memcache.h:219-219 | references into one region are as far apart as the accesses, the first byte of the region is at its pointer, and all lie in the region |
| MemCache.CacheSet.SearchEntry | executor/memcache.h:175-183 | the search stops at the first valid entry of the key in recency order, or at the oldest slot, which it does not test |
| MemCache.CacheSet.UseSlot | executor/memcache.h:161-170 | relinking moves the slot to the front and keeps a permutation of all slots |
| MemCache.CacheSet.Fill | executor/memcache.h:218-222 | only the oldest slot is overwritten and keys stay unique |
| MemCache.CacheSet.constructor | executor/memcache.h:279-293 | all slots linked and invalid |
| MemCache.FillKeepsUnique | executor/memcache.h:175-225 | filling the oldest slot after a miss keeps one valid entry per key |
| UsageList.MoveToFront | executor/memcache.h:161-170 | two link updates and the head realise the new recency order |
| UsageList.SlotHasPlace | executor/memcache.h:161-183 | every slot is in the list |
| WriteBack.WriteBackOverAllRuns | executor/memcache.h:227-276 | after any run of safe requests and invalidations that ends with an invalidation, each write asked for was issued exactly once, in order |
| WriteBack.InvOverAllRuns | executor/memcache.h:227-276 | at every moment issued and pending writes together are those asked for, in order, and the dirty list is distinct and in use order |
| WriteBack.ServedKeepsInvIffSafe | executor/memcache.h:227-262 | a request keeps that iff it misses, or is no write and hits a clean buffer or the newest write |
| WriteBack.NothingLostIffInUseOrder | executor/memcache.h:232-237 | no number of misses ever takes a pending write that is not the oldest iff the dirty buffers were last used in the order of their writes |
| WriteBack.VictimIsOldestWrite | executor/memcache.h:232-237 | in use order an evicted dirty buffer is the oldest write |
| WriteBack.HitKeepsUseOrder | executor/memcache.h:175-183 | a hit keeps the use order iff it is on a clean buffer or on the newest write |
| WriteBack.HitOnOlderWriteLosesWrite | executor/memcache.h:227-237 | after any other hit enough misses lose a write |
| WriteBack.ReadOfOlderWrite | executor/memcache.h:227-262 | two writes and a read of the first one lead there from the start |
| WriteBack.WriteAfterRead | executor/memcache.h:227-276 | from the start, a read and a write of the same key: an invalidation issues no write |
| WriteBack.WriteOnHitIsNotQueued | executor/memcache.h:230-251 | a write that finds a buffer leaves the dirty list as it is |
| WriteBack.FlushAllIssuesPending | executor/memcache.h:269-276 | writing back all buffers issues exactly the pending writes |
| WriteBack.InvalidateKeepsInv | executor/memcache.h:269-276 | an invalidation issues all pending writes, and no key is found in a buffer after it |
| WriteBack.AddressesSpanPages | executor/memcache.h:122-135 | the double words of an access run on from the end of the first page into the second |
| WriteBack.WordsCoverAccess | executor/memcache.h:122-135 | an access is sent as one message for each of its double words, of its kind and at its place in the two pages |
| WriteBuffers.Buffers.Get | executor/memcache.h:227-262 | the links and arrays refine a request |
| WriteBuffers.Buffers.InvalidateDirty | executor/memcache.h:141-155 | the oldest write is issued and leaves the dirty list |
| WriteBuffers.Buffers.Invalidate | executor/memcache.h:269-276 | all pending writes are issued, or dropped, and all buffers are empty |
| WriteBuffers.Buffers.BufferIo | executor/memcache.h:122-135 | the messages on the bus are those of the accesses issued |
| WriteBuffers.Buffers.SendWords | executor/memcache.h:122-135 | the loop sends one message for each double word |
| WriteBuffers.Buffers.QueueWrite | executor/memcache.h:243-251 | the buffer becomes the last of the dirty list |
| WriteBuffers.Buffers.constructor | executor/memcache.h:295-303 | empty buffers, nothing pending |
| WriteBuffers.UnlinkOldest | executor/memcache.h:141-152 | the links of the dirty list after removing its head |
| WriteBuffers.LinkNewest | executor/memcache.h:243-251 | the links of the dirty list after appending |
| Segmentation.ApplySegmentation | model/intel82576vf.cc:161-240 | which packets are sent for one packet, with and without segmentation, and for unsupported protocols |
| Segmentation.PayloadConserved | model/intel82576vf.cc:209-237 | the payloads of the segments join to the original payload |
| Segmentation.SegmentShape | model/intel82576vf.cc:209-237 | with n segments (n - 1) * mss < payload <= n * mss; all but the last carry mss bytes, and each one is, byte by byte at the places of RFC 791, RFC 8200, RFC 793 and RFC 768, the original header with its own length, identification i further, sequence number i * mss further, flags without FIN and PSH but in the last, valid checksums, and its piece of the payload |
| Segmentation.SegmentOnTheWire | model/intel82576vf.cc:202-206 | the same for one segment |
| Segmentation.Segment | model/intel82576vf.cc:209-237 | the loop in one buffer: every segment has its payload, length, identification, sequence number, flags and valid checksums, and else the original header |
| Segmentation.LengthField | model/intel82576vf.cc:214-214 | the length field is the length of the datagram with its IP header iff that fits 16 bits, which for IPv6 is never the length that the standard asks for |
| Segmentation.SendSegment | model/intel82576vf.cc:210-236 | one round of the loop emits the segment and leaves the unsent payload and the next header in the buffer |
| Segmentation.FilledTail | model/intel82576vf.cc:220-223 | moving a chunk down does not reach the payload behind it |
| Segmentation.AdvancedHeader | model/intel82576vf.cc:232-235 | identification and sequence number of the next segment, modulo 2^16 and 2^32 |
| Segmentation.ApplyOffload | model/intel82576vf.cc:242-296 | the buffer after the checksum offload, for all its early returns |
| Segmentation.OffloadFootprint | model/intel82576vf.cc:242-296 | the offload writes the checksum fields only |
| Segmentation.OffloadSums | model/intel82576vf.cc:265-288 | both checksums are those of the finished segment with their own field zero |
| Packet.WithoutFinPsh | model/intel82576vf.cc:216-218 | FIN and PSH are cleared, all other flags kept |
| Packet.NetworkOrder | model/intel82576vf.cc:214-235 | 16- and 32-bit fields stand with their highest byte first |
| Packet.MoveDown | model/intel82576vf.cc:220-223 | the overlapping move towards the front |
| Dma.CopyInOut | include/host/dma.h:39-64 | moves bytes [offset, offset + len) of the flattened descriptor list, with wrapping 64-bit addresses; it succeeds iff the slice is empty, or ends in the list and every descriptor it visits lies in memory, and else moves the bytes up to the first one that does not |
| Dma.SucceedsIff | include/host/dma.h:44-64 | what the first loop finds and the second loop makes of it is that condition on the list |
| Dma.PlannedIsSlice | include/host/dma.h:45-62 | the addresses that the second loop moves are the slice, as far as it goes |
| Dma.EmptyDescriptorStopsCopy | include/host/dma.h:51-51 | an empty descriptor outside of memory stops a copy whose bytes all lie in memory |
| Dma.RoundTrip | include/host/dma.h:39-64 | two copies through descriptors that do not overlap, out of one buffer and into another: they fail iff the condition of `CopyInOut` does not hold, and else the second buffer begins with the bytes of the first |
| Dma.ReadAndRestore | include/host/dma.h:39-64 | two copies through any descriptors, in and out again, leave memory as it is |
| Dma.DistinctIffNoOverlaps | include/host/dma.h:39-64 | the addresses of a list are distinct iff no two of its descriptors share a place |
| Dma.AllReturnIffDistinct | include/host/dma.h:39-64 | scattering and gathering at a list of addresses gives back all data iff they are distinct |
| Dma.OutThenIn | include/host/dma.h:39-64 | what is scattered to distinct addresses is gathered again |
| Dma.InThenOut | include/host/dma.h:39-64 | scattering what was gathered at the same addresses, distinct or not, changes nothing |
| Dma.ScatterConcat | include/host/dma.h:39-64 | moving piece by piece is moving at once |
| Dma.ScatterFrame | include/host/dma.h:39-64 | memory outside of the descriptors is unchanged |
| Dma.SumLength | include/host/dma.h:29-34 | the length of the flattened list, modulo 2^64 |
| Dma.Skip | include/host/dma.h:44-44 | the first loop finds the descriptor of an offset |
| AtomicLifo.Linearizable | include/service/lifo.h:31-39 | at every moment of every interleaving the head leads without a cycle through exactly the nodes enqueued and not taken, newest first, and all nodes taken and left are all enqueues in the order of their compare-and-swaps |
| AtomicLifo.EachTakenOnce | include/service/lifo.h:31-39 | each enqueue is returned by exactly one `dequeue_all` or is still in the list |
| AtomicLifo.CallIsPending | include/service/lifo.h:31-37 | no enqueue is lost: a call is under way until a compare-and-swap of its thread has put its node in front of the list |
| AtomicLifo.PushesAlone | include/service/lifo.h:31-37 | a thread that is not interrupted puts its node in front of the list within five accesses |
| AtomicLifo.FailureMeansProgress | include/service/lifo.h:33-36 | a compare-and-swap fails only if another enqueue or `dequeue_all` has succeeded since the load |
| AtomicLifo.InvOverAllRuns | include/service/lifo.h:31-39 | the invariant behind both holds in every reachable state |
| AtomicLifo.PushKeepsInv | include/service/lifo.h:31-38 | a successful compare-and-swap extends the list even if the head changed and came back in between |
| AtomicLifo.AccessKeepsInv | include/service/lifo.h:31-38 | the other accesses of `enqueue` leave the list alone |
| AtomicLifo.DequeueKeepsInv | include/service/lifo.h:39-39 | the exchange takes the whole list |
| AtomicLifo.ChainUnique | include/service/lifo.h:31-39 | the head pointer determines the nodes |

## Left out

- The host drivers, the front ends under unix and nre except the trigger loop, the instruction emulator, its decoder and its TLB: their behaviour depends on hardware, threads or generated code, or would add only easy members.
- The remaining device models (VGA, keyboard, IDE, SATA, serial, PIT, PCI, network reception) and the packet ring of include/sigma0/consumer.h.
- The checksum arithmetic of include/service/net.h: `Segmentation` takes a checksum over a byte range as a parameter.
- Local APIC: sending IPIs, the APIC base register, x2APIC register access, remote reads, and the exact masks of read-only register bits.
- I/O APIC: reading registers, the ID register, and indices above the redirection entries.
- MSI: the round-robin choice among several processors for lowest-priority messages; `Routing` has one local APIC at which the pins are aimed.
- 8259: initialisation words, the vector numbers, polling, the notification of devices and the propagation to the upstream controller.
- VCPU: the priority decision on the event word is reduced to clearing any part of the bits read, and injection into the guest is not modelled.
- RTC: port access, the divider of the counter and the programming of the host timer for the next interrupt.
- TimeoutList: the data pointer of an entry.
- RegionList: `find_phys`, `alloc_max` and printing.
- Memory cache: the hash that selects one of 64 independent sets, the contents of the buffers, and wrap-around of addresses near 2^64.
- TX descriptors: parsing of descriptor words and the descriptor ring; the lengths and options they hold are parameters.
- Routing.TokensOverAllRuns: in its runs the level pins have different vectors, are aimed at the local APIC in a fixed or lowest-priority mode and begin with nothing pending, redirection entries change in their mask only, the LVT does not use the vectors of level pins, EOI broadcasts are not suppressed, and there is no INIT or reset.
- TimeoutList.TimeoutQueue.Request: excludes the timer number equal to the number of entries, which the range check of the source lets through although no such entry exists.
- RegionList.RegionArray.Alloc: excludes requests whose offset underflows in some region; `RegionList.AcceptedIffPlaceable` says exactly what the test of the source does there.
- RegionList.RegionArray.Add: needs room for one entry more than there are regions, and for one more if a region is split, as the source checks with assertions; excludes regions that go beyond the end of the address space. What later operations do to a list with a region that reaches that end is not modelled.
- RegionList.RegionArray.Del: needs room for one more entry if a region is split, and excludes ranges that go beyond the end of the address space and wrap around.
- WriteBuffers.Buffers.Get: covers misses whose victim holds no pending write or the oldest one, as the comment in the source demands; what the dirty list looks like after any other miss is not modelled.
- Segmentation.ApplySegmentation: needs a positive mss, a payload not longer than the packet, an IP header that covers its checksum field and a header that covers the TCP checksum field, without which the loop of the source does not end or reaches outside of the header.
- Segmentation.Segment: needs a positive mss and such headers, for the same reason.
- IoApic.Device.WriteData: excludes the registers 0x40 to 0x4e, which the range test of the source lets through although no redirection entry belongs to them (`IoApic.TestOfRegisters`); the ID register is not modelled.
- Dma.RoundTrip: needs three different arrays, and a memory like `Dma.CopyInOut`.
- Dma.CopyInOut: needs a memory whose size and the length copied do not add up to 2^64.
- TimeoutList.TimeoutQueue.TriggerAll: the handlers of the timeouts fired do not request new ones in the loop.
- Calendar.GmTimeThenMkTime: years up to 5883516, from which on the day count no longer fits its type.
- Rtc.Rtc146818.UpdateRam: years up to 9999, since the century register has two digits.
- Rtc.Rtc146818.NextSecond: the same years, and stored times that are not within two days of 2^64.
- Rtc.Rtc146818.UpdateCycle: the same years and stored times, while the clock runs.
- Rtc.RunCycles: runs that end before the year 10000.
- RtcRegisters.NextAlarm: excludes seconds within two days of 2^64, where the search wraps.
