# Verified models of the satellite firmware

Dafny models of the parts of the firmware whose correctness is hardest to see, with proofs of what they
are for. `dafny verify dfyconfig.toml` checks everything; there is nothing else to build.

| part | files |
|---|---|
| lock-free paged ring buffer | `RingProtocol` (every interleaving) and `RingProgress` (what every call achieves), `RingArithmetic`, `RingBuffer` (the class) |
| serial wire debug programmer | `Programmer` and `ProgrammerRuns` (the two wires), `Wire` (what hangs on them), `SerialWire` (transfers), `Target`, `ControlMasks` and `TargetRuns` (debug port client), `MemoryBlocks`, `Flash` (page writer) with `FlashStages` and `FlashProgress`; the target: `DebugPort`, `FlashController`, `FlashControl`, `FlashContents`; concrete runs: `Bench`, `TargetLimits`, `FlashLimits` |
| cooperative scheduler | `SchedulerProtocol` (the machine) and `SchedulerTimes` (what tasks ask for and get), `Scheduler` (the class), `Task` (ownership of coroutines) |
| simulated clock | `EventTimes`, `ScaledClock` |
| reference-counted peripherals | `Peripherals`, `Handles` |
| integer hash | `IntegerHash` |
| S-expression parser | `SExprLexer` and `SExprLiterals`, `SExprParser` and `SExprFrames` |
| board identification | `ResistorSeries`, `BoardConfigurations`, `BoardMatching` |
| GPIO registers, bit fields, base-64 integers | `Gpio`, `Bits`, `Base64` |

Code that works by changing things step by step is modelled by classes, arrays and loops with the fields
and branches of the source; each method is tied to a specification, and the results are proved about
that. Three parts are also written as machines over events or steps, because what matters is all their
runs:

- `RingProtocol` quantifies over every schedule of single loads, element copies and compare-and-swaps
  of one producer and one consumer.
- `SchedulerProtocol` quantifies over every behaviour of the tasks. `Scheduler` is shown to produce such
  runs only: its log of events is one.
- `Wire` is a target that advances at every rising edge of the clock line. It answers from a script:
  any acknowledgement, any garbled word. The programmer classes drive it level by level, so that the
  contracts of `Target` and `Flash` are about everything down to the wires. What the target does follows
  ARM IHI 0031 (ADIv5), sections B2.2, B4.2 and C2.2.2.

Machine words are natural numbers with their width written out; times of the scheduler and the clock are
integers; resistances are real numbers.

## What the code does not do

Where a property is false of the code, the model keeps the code, the exact condition is proved, and a run
or an input shows the failure.

- `clear_errors` and `power_on` count attempts after the loop has succeeded, so that success at the last
  attempt is reported as a failure. Condition: at most six ABORT writes, at most 30 reads
  (`Target.Target.ClearErrors`, `Target.Target.PowerOn`). Runs: `TargetLimits.SevenErrors`,
  `TargetLimits.SlowPower`.
- `erase_page_unlocked` clears the mass erase bit only after the erase. It erases just its page if and only
  if that bit is clear (`Flash.Flash.ErasePageUnlocked`). A mass erase that fails at its last read of the
  control register leaves the bit set (`Flash.Flash.MassEraseUnlocked`). Run:
  `FlashLimits.InterruptedMassErase`.
- `write_pages` ignores whether its status polls were acknowledged, and judges the last status it has.
  A success means that the pages were written, whatever the answers, if and only if the start allows it:
  the controller is locked or unlocked, not jammed and not given one key; no error is pending; nothing that
  would be erased is protected; and no word goes where one that is not blank went before
  (`Flash.Flash.WritePages`, whose condition is `FlashProgress.CanWrite`). While every answer is good that
  is also just when it succeeds. Run, for every other start: `FlashLimits.WriteUnnoticed`.
- `write_pages` sends 2 KB in one auto-incremented block. A block for a page stays in the window exactly on
  targets whose window has at least 2 KB; the standard guarantees 1 KB (`FlashControl.PageFitsWindow`). In
  a smaller window words go round it: the page can be written if and only if all but its last words, as many
  as the window has, are blank, and then it is not the page of the source unless that is blank
  (`FlashContents.ShortWindow`, `FlashContents.SmallWindowSpoils`). Otherwise the controller reports PROGERR
  (`FlashControl.BlockAccepted`) and an acknowledged poll fails the call.
- A clock can go back when it is set, if and only if the time that it is then lies after the request or
  after an event that is still pending (`ScaledClock.ScaledClock.UpdateClockables`). Run:
  `ScaledClock.OverdueEvent`. A mock clock that is not set back never does (`ScaledClock.MockClockCalm`).
- A newline behind a backslash in a string literal is not counted by the tokenizer; lines are right if and
  only if there is none (`SExprLexer.LineIsRight`). Input: `SExprLexer.HiddenNewline`.
- The E48 table of resistor values says 865 where E96, and IEC 60063, have 866; all other values of the
  coarser series are those of the finer ones (`ResistorSeries.SeriesNest`).
- The documentation of `hal/peripheral.h` leaves nested peripherals as a plan (lines 28-31); the code of
  pins and LEDs implements them, and the model follows the code.

## Model

| member | source | states |
|---|---|---|
| `RingProtocol.RunKeepsInv` | buffer/ring_buffer.h:134-282 | one invariant (pointer order, capacity, which stored elements are trustworthy, what an unfinished copy can hold) survives every interleaving of the loads, element copies and compare-and-swaps of one producer and one consumer, in both overflow modes |
| `RingProtocol.DeliveriesAreStream` | buffer/ring_buffer.h:134-159 | both modes, every schedule: each consume that returns something returns consecutive elements of the supplied stream, after all earlier deliveries; all of them together are the stream less what was dropped or popped; `read <= write <= read + capacity` |
| `RingProtocol.KeepOldIsQueue` | buffer/ring_buffer.h:85-100 | old elements first, every schedule: the concatenation of everything consumed is exactly the supplied stream up to the read pointer, so nothing is lost, duplicated or reordered |
| `RingProtocol.TornCopyIsDiscarded` | buffer/ring_buffer.h:141-158 | if any element of a copy in progress differs from the stream, the read pointer has moved on and the compare-and-swap will fail, so the call returns nothing |
| `RingProtocol.NothingThrown` | buffer/ring_buffer.h:249-281 | under every schedule the exceptions of supply, consume and the bounds check are unreachable, and a fully stored supply does get published |
| `RingProtocol.DropsOnlyWhatIsNeeded` | buffer/ring_buffer.h:252-262 | the compare-and-swap that makes room comes only when new elements have priority and the room is missing, and drops exactly as many as are missing |
| `RingProgress.SupplyOutcome` | buffer/ring_buffer.h:237-282 | every supply, under every schedule: the stream grows by the smallest of the room on the page, the elements offered and, in old mode, the free space, and exactly the elements by which the ring would be exceeded are dropped; it publishes nothing instead only if in new mode room must be made and the consumer has moved the read pointer meanwhile |
| `RingProgress.ConsumeOutcome` | buffer/ring_buffer.h:134-159 | every call of consume, under every schedule: it returns and takes exactly what its second load found, up to the end of the page and to what was asked for; it returns nothing only if nothing was asked for, the ring was empty at that load, or the producer has moved the read pointer meanwhile |
| `RingProgress.PopOutcome` | buffer/ring_buffer.h:206-230 | every call of pop, under every schedule: it takes one element, or none if the ring was empty at its second load or the producer has moved the read pointer meanwhile |
| `RingProgress.SupplyIsWaitFree` | buffer/ring_buffer.h:237-282 | a supply of `n` elements always has a step it can take that brings it nearer to its end, and ends after at most `n + 3` such steps, whatever the consumer does |
| `RingProgress.ConsumeIsWaitFree` | buffer/ring_buffer.h:134-159 | so does a call of consume, after at most `n + 2` |
| `RingProtocol.RunsExtend` | buffer/ring_buffer.h:134-282 | over any run pointers never go back, and what was published, decided or delivered never changes |
| `RingProtocol.PeekAcross` | buffer/ring_buffer.h:184-199 | under every schedule, with the two loads of peek at any two steps of it: peek finds nothing only if the ring was empty at its second load, and what it points at is the stream element at the position it loaded first, until that position has been delivered, popped or dropped |
| `RingArithmetic.PointerAdvanced` | buffer/ring_buffer.h:79-83 | page and offset recombine to the advanced pointer, also when the offset reaches the end of the page |
| `RingArithmetic.DistinctPlaces` | buffer/ring_buffer.h:79-83 | two positions less than a ring apart never share a page slot and offset |
| `RingBuffer.Buffer.ReadArray` | buffer/buffer.h:202-206 | copies exactly the requested elements or reports the range error, and touches nothing else of the destination |
| `RingBuffer.Buffer.WriteArray` | buffer/buffer.h:225-229 | overwrites exactly the requested elements or reports the range error |
| `RingBuffer.RingBuffer.Consume` | buffer/ring_buffer.h:134-159 | between other calls: delivers the oldest elements, as many as asked for, available and left on the page, and removes exactly those |
| `RingBuffer.RingBuffer.Peek` | buffer/ring_buffer.h:184-199 | shows the oldest element if and only if there is one |
| `RingBuffer.RingBuffer.Pop` | buffer/ring_buffer.h:206-230 | removes the oldest element if and only if there is one |
| `RingBuffer.RingBuffer.Supply` | buffer/ring_buffer.h:237-282 | appends up to the end of a page; old mode takes no more than fit, new mode keeps the last `capacity` elements of old contents and new ones |
| `RingBuffer.DropThenAppend` | buffer/ring_buffer.h:246-276 | making room first and appending afterwards equals appending and keeping the newest |
| `Programmer.ProgrammerStm32l4xx.Turnaround` | hal/programmer/stm32l4xx_programmer.cc:50-71 | a change of direction costs exactly one floating clock, no change costs none; SWDIO is an output exactly while the host drives |
| `Programmer.ProgrammerStm32l4xx.SendNoParity` | hal/programmer/stm32l4xx_programmer.cc:73-87 | the levels at rising edges are the low bits of the word, least significant first, and the target is clocked with exactly those |
| `Programmer.ProgrammerStm32l4xx.Send` | hal/programmer/stm32l4xx_programmer.cc:89-105 | the same, followed by the parity of the bits sent |
| `Programmer.ProgrammerStm32l4xx.ReceiveNoParity` | hal/programmer/stm32l4xx_programmer.cc:107-126 | the word is spelled by the levels sampled, least significant first |
| `Programmer.ProgrammerStm32l4xx.Receive` | hal/programmer/stm32l4xx_programmer.cc:128-143 | reports a match if and only if the parity of the word equals the bit that follows it |
| `Programmer.ProgrammerStm32l4xx.IdleCycles` | hal/programmer/stm32l4xx_programmer.cc:145-155 | any number of idle clocks, sent in portions of 32, is that many driven zeros |
| `ProgrammerRuns.Perform` | hal/programmer/stm32l4xx_programmer.cc:50-155 | over every sequence of the public calls, changes of direction included: the driven levels are exactly the bits to be sent, in order, with their parities; floating clocks are the bits received plus one per change of direction; the clock is low between calls |
| `Wire.FromLsbFirst` | hal/programmer/stm32l4xx_programmer.cc:73-126 | a word sent least significant bit first is spelled back the same |
| `Wire.OneFlipIsRejected` | hal/programmer/stm32l4xx_programmer.cc:89-143 | the 33 bits of a data phase are accepted as the word that was sent, and with any single one of them flipped they are rejected |
| `Wire.RequestUnderstood` | serial_wire/serial_wire.h:55-100 | every request packet takes an idle target to waiting for the turn of the line, with the port, direction and register that the packet names |
| `Wire.AckPhase` | serial_wire/serial_wire.cc:17-32 | three clocks of the acknowledgement spell the target's answer |
| `Wire.ReceivePhase` | serial_wire/serial_wire.cc:46-54 | the data phase of a write leaves the target having written exactly the word sent |
| `Wire.SendPhase` | serial_wire/serial_wire.cc:34-44 | the data phase of a read shows the host exactly the bits the target sends |
| `SerialWire.ComputeCommandParity` | serial_wire/serial_wire.h:66-72 | sets the parity bit to the parity of the four checked bits and changes no other bit |
| `SerialWire.CreateCommand` | serial_wire/serial_wire.h:60-84 | every command is a well-formed request packet (start, port, direction, register, parity, stop, park) for its address |
| `SerialWire.SerialWire.SendCommand` | serial_wire/serial_wire.cc:17-32 | on the wire, the answer returned is the one that decides after at most eight attempts, and without OK the target is untouched |
| `SerialWire.FirstThatDoesNotWait` | serial_wire/serial_wire.cc:17-32 | the deciding answer is the first that is not WAIT, or the eighth, and no answer after it is used up |
| `SerialWire.FinalAnswerShrinks` | serial_wire/serial_wire.cc:17-32 | a call that fails has used up at least one bad answer of the target, so retrying callers come to an end |
| `SerialWire.SerialWire.SwdRead` | serial_wire/serial_wire.h:105-116 | the whole bit-level exchange amounts to one register read: nothing happens without OK, a garbled word is reported as a parity failure |
| `SerialWire.SerialWire.SwdWrite` | serial_wire/serial_wire.h:109-120 | the whole bit-level exchange amounts to one register write that takes effect exactly on OK |
| `Target.WithBank` | serial_wire/target.cc:214-228 | selecting a bank sets the bank field to the high nibble of the address and keeps the access port field |
| `Target.WithAp` | serial_wire/target.cc:199-212 | selecting an access port sets its field and keeps the bank |
| `Target.FullSelect` | serial_wire/target.cc:185-197 | selecting an access port together with a bank sets both fields of SELECT and leaves every other bit zero |
| `Target.BankedReaches` | serial_wire/target.h:156-172 | with the bank selected, the register number in the request completes the address that was asked for |
| `Target.Target.WriteSelect` | serial_wire/target.h:122-132 | the cached value equals SELECT before and after, whatever the target answers; an unchanged value causes no transfer |
| `Target.Target.SelectApBank` | serial_wire/target.cc:214-228 | SELECT changes only on success, and nothing is transferred when the bank is already selected |
| `Target.Target.SelectAp` | serial_wire/target.cc:199-212 | the same for the access port |
| `Target.Target.SelectApAndBank` | serial_wire/target.cc:185-197 | the same for the access port together with the bank |
| `Target.Target.ApWriteRegister` | serial_wire/target.h:165-172 | on success the named register of the selected access port is written; on failure at most the bank has changed |
| `Target.Target.ApReadRegister` | serial_wire/target.h:156-163 | on success returns the result of the previous access port read and posts this one |
| `TargetRuns.Perform` | serial_wire/target.cc:185-322 | every sequence of selections, register accesses of the access port, RDBUFF, ABORT and CTRL/STAT accesses and one-word memory accesses, over a wire that answers anything, is a run in which each operation has its effect or fails as it should; the cached SELECT value agrees at the end |
| `TargetRuns.PortIsLastSelected` | serial_wire/target.cc:185-228 | in every run the selected access port is that of the last successful selection, whatever banks were selected and whatever failed in between |
| `TargetRuns.WriteReaches` | serial_wire/target.h:165-172 | in every run an acknowledged write goes to the register it names, in the access port selected last |
| `TargetRuns.MemoryReached` | serial_wire/target.cc:254-322 | in every run an acknowledged memory access reaches the memory if and only if the access port selected last is the one of the memory; otherwise a write is lost and a read returns zero |
| `TargetRuns.PostedRead` | serial_wire/target.h:134-163 | in every run reading RDBUFF right after a register read returns what that register held |
| `Target.Target.ClearErrors` | serial_wire/target.cc:55-84 | first failed transfer stops the call and is returned; otherwise it succeeds exactly if at most six ABORT writes are needed: when the seventh clears the errors the call still reports TOO_MANY_ATTEMPTS |
| `Target.Target.PowerOn` | serial_wire/target.cc:87-131 | first failed transfer stops the call and is returned; otherwise it succeeds, with power acknowledged and no error, exactly if power and errors settle within 30 reads, though up to 32 reads would leave power on |
| `ControlMasks.ErrorMasks` | serial_wire/target.cc:67-75 | the masks 0xb0 and 0x30 find an error exactly where one of the sticky flags 4, 5 and 7, or 4 and 5, is set |
| `ControlMasks.PowerMask` | serial_wire/target.cc:115-123 | under the mask 0xa0000030 the register is 0xa0000000 exactly if both acknowledgements 29 and 31 are set and the flags 4 and 5 are not |
| `Target.RequestPower` | serial_wire/target.cc:95-96 | sets bits 28 and 30 and keeps every other bit |
| `TargetLimits.SevenErrors` | serial_wire/target.cc:55-84 | errors that need seven ABORT writes: the call clears them all and reports a failure |
| `TargetLimits.SlowPower` | serial_wire/target.cc:87-131 | power that needs 31 reads: the call ends with power on and reports a failure |
| `Target.Target.ApReadMem` | serial_wire/target.cc:254-286 | one word: what the bus reads at the address, through the posted read and RDBUFF, or zero through another access port; the first failed transfer ends the call and is returned; a garbled word is handed out with the failure |
| `Target.Target.ApWriteMem` | serial_wire/target.cc:288-322 | one word written at the address on success, at most that on failure, nothing through another access port; the first failed transfer ends the call and is returned |
| `Target.Target.ApReadBlock` | serial_wire/target.cc:324-365 | at least one word: on success the destination holds exactly the words read, in order, and nothing after them; the bus is read once per word; the first failed transfer stops all later ones and is what is returned |
| `Target.Target.ApWriteBlock` | serial_wire/target.cc:367-403 | the bus sees the source words in order at the auto-incremented addresses, on failure a beginning of them; success includes the read of CSW that flushes them; the first failed transfer stops all later ones and is what is returned |
| `MemoryBlocks.BlockInWindow` | serial_wire/target.cc:324-403 | a block goes to consecutive words if and only if it ends inside the auto-increment window it begins in |
| `MemoryBlocks.WordAddressWraps` | serial_wire/target.cc:324-403 | in general word `i` goes round the window of its first address |
| `MemoryBlocks.BlockStores` | serial_wire/target.cc:367-403 | a block written to plain memory inside a window stores word `i` at `addr + 4 i` and nothing else |
| `MemoryBlocks.StoredAt` | serial_wire/target.cc:367-403 | which addresses the stored block covers, with which words, and that all other memory is as before |
| `MemoryBlocks.BlockReadsKeep` | serial_wire/target.cc:324-365 | reading plain memory changes nothing |
| `MemoryBlocks.BlockRoundTrip` | serial_wire/target.cc:324-403 | what a block write stores, a block read of the same place returns |
| `Flash.Flash.WaitWhileBusy` | serial_wire/flash.cc:19-26 | ends, and on success the controller is no longer busy and otherwise as before |
| `Flash.Flash.ErasePageUnlocked` | serial_wire/flash.cc:28-69 | erases just the page if and only if no mass erase is still selected; then no other page changes in any run, and otherwise everything is blank; if the controller does not accept the erase the call can still succeed, and leaves a controller that accepts nothing |
| `Flash.Flash.MassEraseUnlocked` | serial_wire/flash.cc:71-110 | on success everything is blank and no erase is selected, or the controller accepts nothing; while every answer is good the call succeeds; if only the read of the control register after the erase fails, everything is blank, the call fails and the mass erase stays selected |
| `Flash.Flash.UnlockFlash` | serial_wire/flash.cc:112-123 | touches only the lock; on success a controller that was locked is unlocked, and one that had been given a key before is jammed until reset |
| `Flash.Flash.LockFlash` | serial_wire/flash.cc:125-138 | on success a controller that was unlocked is locked, and one that was not is as before; only the lock can change, and no selection |
| `Flash.Flash.WritePage` | serial_wire/flash.cc:289-382 | one page: the new history is the erase and a beginning of the words; all of it happens exactly when the call succeeds on a page that the controller takes and no word of which goes where one that is not blank went; with acknowledged polls the call does not succeed otherwise, and while every answer is good it succeeds exactly on such a page; success leaves programming deselected and the end of operation cleared |
| `Flash.Flash.WritePages` | serial_wire/flash.cc:279-393 | the whole history of erasing and programming can happen only from a start that can be unlocked, shows no error, protects nothing to be erased, and needs no place twice; from such a start success means exactly that it has happened, however the polls were answered, and failure that a beginning of it has; while every answer is good the call succeeds if and only if the start is one; from any other start a failed beginning is all that can happen if the polls were acknowledged, and one script of answers makes the call succeed all the same; without a leftover mass erase no page out of range ever changes; success leaves the flash locked, or jammed if it was, with programming deselected |
| `FlashContents.TraceContents` | serial_wire/flash.cc:279-393 | after the whole history every page of the range holds its words of the source, each at its place, and every other page is unchanged, or blank if the first erase was a mass erase |
| `FlashContents.TraceAt` | serial_wire/flash.cc:289-382 | the order of events: each page is erased and then programmed word by word before anything happens to the next; a mass erase that was still selected takes the place of the first erase |
| `FlashControl.PageFitsWindow` | serial_wire/flash.cc:312-322 | a page fits the auto-increment window if and only if the window has at least 2 KB; ARM IHI 0031 guarantees 1 KB |
| `FlashProgress.CanWriteInLongWindow` | serial_wire/flash.cc:279-393 | in a window of at least a page whether write_pages can do its work depends on the lock, the error flags and the protected pages alone |
| `FlashLimits.WriteUnnoticed` | serial_wire/flash.cc:279-393 | from every start and with every source there is a run of write_pages that succeeds and whose history is the one that is meant if and only if the start allows it; on a jammed controller that run writes nothing |
| `FlashLimits.InterruptedMassErase` | serial_wire/flash.cc:28-110 | a mass erase whose last read of the control register is garbled fails, and the page erase after it succeeds and erases everything again |
| `FlashContents.PlacesWrap` | serial_wire/flash.cc:312-322 | in a smaller window of `size` words, at most half a page, word `i` goes to place `i % size` |
| `FlashContents.ShortWindow` | serial_wire/flash.cc:312-322 | a page needs no place twice in such a window if and only if all but its last `size` words are blank |
| `FlashContents.SmallWindowSpoils` | serial_wire/flash.cc:312-322 | a page written through such a window without an error is the page of the source if and only if that is blank |
| `FlashControl.BlockAccepted` | serial_wire/flash.cc:312-322 | a blank page that the controller accepts takes a block word by word, each at its place round the window, up to the first word whose place is not blank; then the controller reports PROGERR and records nothing more |
| `FlashControl.BlockRefused` | serial_wire/flash.cc:312-367 | a controller that does not accept a block records nothing, and shows an error that the status check finds |
| `FlashControl.BusWriteFollows` | serial_wire/flash.cc:279-393 | whatever is written to the bus, the contents are what the recorded history makes of the old ones |
| `SchedulerProtocol.RunKeepsInv` | system/scheduler.h:38-104 | one invariant (cursor, numbering, completion, wake times, visits) holds in every run, for tasks that add, remove, stop, yield or finish as they like |
| `SchedulerTimes.ResumedWhenDue` | system/task.h:29-36 | in every run a task is resumed only at a clock reading not before the time that it asked for last, which is that of its latest yield in the log or else of its addition, and not after it has finished unless it was added complete |
| `SchedulerTimes.SlotsAreAsked` | system/task.h:29-86 | in every run a slot holds the time that its task asked for last according to the log, and knows whether it has finished |
| `SchedulerTimes.DueTaskIsResumed` | system/scheduler.h:65-81 | a task that is queued and due when a pass begins is resumed exactly once by the time the pass has come past its slot, unless another one removes it |
| `SchedulerTimes.QueuedUntilItLeaves` | system/scheduler.h:38-81 | a task is in the queue exactly from its addition until it is removed or the visit in which it finishes is over |
| `SchedulerTimes.FinishedIsGone` | system/scheduler.h:65-81 | outside that visit no finished task is in the queue |
| `SchedulerProtocol.ResumedAtMostOnce` | system/scheduler.h:65-104 | while a due task waits, every other slot is resumed at most once |
| `SchedulerTimes.SleepIsSafe` | system/scheduler.h:83-104 | no sleep ends past the time that a queued task asked for last, if it was visited or added before the pass, or later than five seconds from the start of the pass |
| `SchedulerTimes.NextIsWanted` | system/scheduler.h:65-81 | the wake-up time of a pass is the least of the five second cap and the times that its unfinished tasks asked for by the end of their visits |
| `SchedulerProtocol.QueueSizeBalances` | system/scheduler.h:38-63 | in every run the number of queued tasks is additions less completions less removals |
| `SchedulerProtocol.KeepsSlot` | system/scheduler.h:38-50 | a live task is never found in another slot than before |
| `SchedulerProtocol.DestroyedOnce` | system/scheduler.h:38-81 | every coroutine handed over has been destroyed once if it is no longer queued, and not at all while it is |
| `Scheduler.Scheduler.AddTask` | system/scheduler.h:38-48 | takes the first free slot; ends in the error exactly when there is none |
| `Scheduler.Scheduler.RemoveTask` | system/scheduler.h:50-50 | empties just that slot; an index out of range ends the run |
| `Scheduler.Scheduler.QueueSize` | system/scheduler.h:55-63 | counts the live slots |
| `Scheduler.Scheduler.RunTask` | system/task.h:98-98 | the log gains exactly the resumption, what the task does (add, remove) and how it ends (yield or finish), and the pass stands still meanwhile |
| `Scheduler.Scheduler.Suspend` | system/task.h:29-37 | a task that yields is kept with the time that it names, one that ends is complete |
| `Scheduler.Scheduler.RunTasksOnce` | system/scheduler.h:65-81 | every pass is a run of the machine; the result is at most five seconds after the first clock reading and not after the wake time of any task queued before the pass and still there, which is the time that the task asked for last |
| `Scheduler.Scheduler.Start` | system/scheduler.h:83-104 | unless it is stopped, as many passes as asked for; each pass is followed by one sleep, and no sleep ends past the time asked for by a task that its pass visited, or later than five seconds after the start of the pass; no pass begins after a stop request, and none at all if it came before |
| `Task.Task.Assign` | system/task.h:59-66 | destroys the coroutine it had and takes over the other one; moving a task onto itself leaves it empty |
| `Task.Program.NewTask` | system/task.h:23-23 | a new coroutine has one owner |
| `Task.Program.MoveConstruct` | system/task.h:52-52 | a move keeps at most one owner for every coroutine and destroys none |
| `Task.Program.Assign` | system/task.h:59-66 | assignment keeps: at most one owner, destroyed once if and only if without one |
| `Task.Program.Destruct` | system/task.h:53-57 | so does destruction |
| `EventTimes.NextTimeIsLeast` | time/scaled_clock.h:40-44 | the next time of the clock is not past any pending event, and short of the request only for a due one |
| `EventTimes.EndsWhenRequested` | time/scaled_clock.h:36-49 | the loop ends, at the requested time and not before it |
| `EventTimes.NeverGoesBack` | time/scaled_clock.h:36-49 | from any current time, simulated time never decreases on the way if and only if the request is not in the past and no event is overdue |
| `EventTimes.TimesSorted` | time/scaled_clock.h:36-49 | with subsystems that plan nothing before now, the times gone through increase and nothing is overdue afterwards |
| `EventTimes.HappenInOrder` | time/scaled_clock.h:45-48 | the events of all subsystems happen in the order of their times, none later than requested |
| `EventTimes.NoEventLost` | time/scaled_clock.h:36-49 | as multisets: the events that there will ever be, follow-ups included, are those that have happened and those still to come; none lost, none twice |
| `ScaledClock.Clockable.UpdateTime` | time/clockable.h:23-24 | how far a subsystem lets the clock go: its earliest pending event |
| `ScaledClock.Clockable.Run` | time/clockable.h:26-26 | running makes the due events happen and plans what follows from them |
| `ScaledClock.ScaledClock.CurrentTime` | time/scaled_clock.h:71-73 | never before the time set, and for a clock of scale zero exactly that |
| `ScaledClock.TimeScales` | time/scaled_clock.h:71-73 | between two readings the time moves by the scale times what the underlying clock moves, and at the offset of that clock it is the time set |
| `ScaledClock.ScaledClock.UpdateClockables` | time/scaled_clock.h:36-49 | for every scale: starts by setting the clock to the time that it is, goes through the specified times and ends exactly at the requested one, with the specified events left; on the way it goes back if and only if the request lies before the time that it is or an event is overdue then |
| `ScaledClock.ScaledClock.SetAll` | time/scaled_clock.h:76-96 | for every scale and sequence of settings: the times of the clock never go back if and only if every setting is calm when its turn comes |
| `ScaledClock.MockClockCalm` | time/scaled_clock.h:36-49 | for a mock clock that is so if and only if the settings do not go back and nothing is overdue in the beginning |
| `ScaledClock.OverdueEvent` | time/scaled_clock.h:36-49 | a clock of scale one with an event at 5 whose base has jumped to 10 goes to 10, 5 and 20 when set to 20 |
| `Peripherals.IncRefCount` | hal/peripheral.h:49-53 | counting a new handle restores the invariant, enabling what lies below when the count leaves zero, and nothing above; enable and disable alternate |
| `Peripherals.DecRefCount` | hal/peripheral.h:55-59 | giving up a handle restores the invariant, disabling what lies below when the count reaches zero, also with handles that are still being cleared |
| `Peripherals.Enable` | hal/gpio/gpio.h:164-164 | a peripheral that is switched on comes to hold what it sits on; the pin of an LED ends as an output |
| `Peripherals.Disable` | hal/gpio/gpio.h:166-166 | a peripheral that is switched off gives up what it sits on; the pin of an LED ends low and unused |
| `Peripherals.UsePin` | hal/led/hal_led.cc:8-19 | an LED touches its pin only while the pin and its port have power; it ends low and unused |
| `Handles.Program.Access` | hal/peripheral.h:84-109 | a new handle, everything counted and powered accordingly, other handles unmoved |
| `Handles.Program.Copy` | hal/peripheral.h:126-130 | a copy holds what the original holds |
| `Handles.Program.Move` | hal/peripheral.h:117-118 | a moved-from handle is empty and no count or power changes |
| `Handles.Program.MoveAssign` | hal/peripheral.h:120-123 | the handles are swapped and no count or power changes |
| `Handles.Program.CopyAssign` | hal/peripheral.h:132-143 | the handle comes to hold what the other one holds, also when it is the last holder of something else |
| `Handles.Program.EnsureValid` | hal/peripheral.h:145-150 | an empty handle comes to hold the peripheral, another one is left alone |
| `Handles.Program.Invalidate` | hal/peripheral.h:152-157 | the handle is empty and no other handle of the program has changed |
| `Handles.Program.Destroy` | hal/peripheral.h:111-115 | the handle is gone and no other handle of the program has changed |
| `Handles.Perform` | hal/peripheral.h:49-157 | after every possible sequence of these operations, on any handles: counts are the numbers of handles, power is where something is held, enable and disable have alternated |
| `Handles.CountIsHandles` | hal/peripheral.h:49-59 | between calls a count is the number of handles that point at the peripheral |
| `Handles.PoweredIffHeld` | hal/peripheral.h:49-59 | between calls a port, pin or LED has power if and only if the program holds it or something that sits on it |
| `IntegerHash.RoundPower` | hash/integer_hash.h:11-14 | `2^k` rotate-xor rounds are one round with both rotations multiplied by `2^k` |
| `IntegerHash.RotateXorUndone` | hash/integer_hash.h:11-19 | a rotate-xor round, iterated once per bit of the word, is the identity; so it has an inverse on both sides |
| `IntegerHash.MultiplyUndone` | hash/integer_hash.h:21-39 | multiplying by an odd constant and then by its inverse gives the word back |
| `IntegerHash.ShiftUndone` | hash/integer_hash.h:21-39 | the final xor-shift is undone by three more of them |
| `IntegerHash.MixersInvertible` | hash/integer_hash.h:21-39 | the multipliers of both hashes have the inverses given, and their rotations lie inside the word |
| `IntegerHash.UnhashOfHash` | hash/integer_hash.h:21-39 | the word is recovered from its hash |
| `IntegerHash.HashOfUnhash` | hash/integer_hash.h:21-39 | every word is the hash of the word computed for it |
| `IntegerHash.HashesArePermutations` | hash/integer_hash.h:21-39 | both hashes are permutations: injective on all words, and onto |
| `IntegerHash.HashIsStages` | hash/integer_hash.h:21-39 | both hashes, stage by stage: each rotate-xor and the shift bit by bit, each multiplication as a remainder, in the order and with the constants of the source |
| `SExprLexer.Tokenize` | electronics/sexpr_parser.py:63-109 | the loops produce the specified tokens, with the specified places and lines |
| `SExprLiterals.LiteralIsOneAtom` | electronics/sexpr_parser.py:88-101 | a literal spelled of plain characters and of characters behind a backslash is exactly one atom, which ends where it closes, or with the text, whatever follows; its line counts the plain newlines |
| `SExprLiterals.EveryLiteral` | electronics/sexpr_parser.py:88-101 | every text behind a quote is such a literal and what follows it |
| `SExprLiterals.QuotedIsOneAtom` | electronics/sexpr_parser.py:88-101 | any string between quotes, with a backslash before each quote and each backslash, is exactly one atom, whatever follows |
| `SExprLiterals.FirstQuoteEnds` | electronics/sexpr_parser.py:88-101 | without backslashes a literal ends at its first further quote |
| `SExprLiterals.HiddenQuote` | electronics/sexpr_parser.py:88-101 | the literal in `(a "x\"y")` is one atom |
| `SExprLiterals.WordIsOneAtom` | electronics/sexpr_parser.py:102-109 | a word of visible characters is one atom and ends before the next blank or parenthesis |
| `SExprLiterals.LiteralsAreAtoms` | electronics/sexpr_parser.py:88-101 | the strings with a quote in front that a printed tree may hold are just the literals that close at their end |
| `SExprLexer.TokensCover` | electronics/sexpr_parser.py:63-109 | every token covers a non-empty stretch of the text and has it as its value |
| `SExprLexer.TokensOrdered` | electronics/sexpr_parser.py:63-109 | tokens come in the order of the text and do not overlap |
| `SExprLexer.NothingSkipped` | electronics/sexpr_parser.py:63-109 | every character that is not white space is in a token |
| `SExprLexer.LineIsRight` | electronics/sexpr_parser.py:71-101 | the line of a token is one more than the newlines before its end, if and only if no string literal up to it hides a newline behind a backslash |
| `SExprLexer.TokenLine` | electronics/sexpr_parser.py:71-101 | in general it falls short by exactly the newlines so hidden |
| `SExprLexer.HiddenNewline` | electronics/sexpr_parser.py:71-101 | a literal that holds nothing but a newline behind a backslash is given line 1 and ends on line 2 |
| `SExprParser.SExprParser.Parse` | electronics/sexpr_parser.py:30-61 | stack and calls back are what feeding the tokens one by one gives |
| `SExprFrames.ParsedAsNested` | electronics/sexpr_parser.py:30-61 | for any tokens: the stack is the open parentheses, each with its line, its type (the first atom directly behind it) and its further atoms; the calls back are one for every parenthesis that gets its type, on the line of the type, and one for every parenthesis that is closed, on the line of the closing one |
| `SExprParser.OpenedAreClosedOrOpen` | electronics/sexpr_parser.py:34-61 | for any text: opening parentheses are nodes closed plus nodes still on the stack |
| `SExprParser.ReadItem` | electronics/sexpr_parser.py:63-109 | the tokens of a printed tree are those of its parts, whatever follows it |
| `SExprParser.PrintThenParse` | electronics/sexpr_parser.py:30-109 | parsing a printed tree opens and closes every node once, nested as in the tree, with its type and atoms, and ends with an empty stack |
| `SExprParser.ClosesInPostOrder` | electronics/sexpr_parser.py:40-50 | the nodes close in post-order |
| `ResistorSeries.TablesAreSeries` | hal/board_identification/resistor_series.h:18-63 | every table of the source is strictly increasing with three significant digits |
| `ResistorSeries.SeriesNest` | hal/board_identification/resistor_series.h:18-63 | each series holds every second value of the next finer one, but for 865 in the E48 table, where the E96 table has 866 |
| `ResistorSeries.SeriesIncreases` | hal/board_identification/resistor_series.h:99-114 | the values of a series increase strictly over all decades and are positive |
| `ResistorSeries.GenerateSeries` | hal/board_identification/resistor_series.h:99-114 | fills the array with exactly the decades of the table, in order |
| `ResistorSeries.FindClosestResistor` | hal/board_identification/resistor_series.h:126-150 | no value of the series is closer to the target, and of two that are as close the upper one is returned |
| `BoardConfigurations.BandIsAccepted` | hal/board_identification/voltage_divider.h:50-73 | any two resistors within five tolerances of nominal give a reading that is accepted, at every resolution |
| `BoardMatching.MatchIsBand` | hal/board_identification/voltage_divider.h:50-73 | a reading is accepted if and only if it lies between the readings of two pairs of resistors that are within five tolerances of nominal |
| `BoardMatching.OutsideIsRejected` | hal/board_identification/voltage_divider.h:50-73 | a reading above that of every such pair, or below, is rejected |
| `BoardMatching.EqualResistors` | hal/board_identification/voltage_divider.h:50-73 | the readings of twelve bits that a divider of two equal resistors accepts, for every tolerance: for E96 exactly 1945 to 2150 |
| `BoardMatching.ReadingIs` | hal/board_identification/voltage_divider.h:18-28 | a reading is the share of the lower resistor in full scale, rounded down |
| `BoardMatching.DetermineBoardId` | hal/board_identification/board_ids.cc:23-38 | the first configuration that accepts the reading, but near the ends of the scale; if no two accept the same reading, a board whose resistors are within five tolerances is identified as its own configuration |
| `BoardConfigurations.MeasurementIsMonotonic` | hal/board_identification/voltage_divider.h:18-28 | readings fall with the upper resistor and rise with the lower one |
| `BoardConfigurations.MeasurementFits` | hal/board_identification/voltage_divider.h:23-28 | up to fifteen bits a reading lies below full scale |
| `BoardConfigurations.IdIsTopBits` | hal/board_identification/voltage_divider.h:75-82 | from eight to fifteen bits the identifier is the highest eight bits of the ideal reading, nothing cut off |
| `BoardConfigurations.IdIsReading` | hal/board_identification/voltage_divider.h:75-82 | up to eight bits the identifier is the ideal reading |
| `BoardConfigurations.GenerateLevel` | hal/board_identification/voltage_divider_configurations.h:18-36 | adds the new identifiers of a level and keeps what was there; unless the result is full no fraction of the level has anything more to offer |
| `BoardConfigurations.LowTargetIs` | hal/board_identification/voltage_divider_configurations.h:21-25 | unrounded, the two parts of the total divide the supply in just the fraction `i / 2^(level + 1)` |
| `BoardConfigurations.ExactCandidate` | hal/board_identification/voltage_divider_configurations.h:21-28 | if the series holds two values that do so and make up the total, they are the divider for the fraction, the right way round |
| `BoardConfigurations.Generate` | hal/board_identification/voltage_divider_configurations.h:40-57 | ends; the filled part has known, pairwise distinct identifiers of best dividers for some fraction of a level gone through; unless the result is full no level gone through has anything more to offer, and the last one brought nothing |
| `Gpio.PinFieldAt` | hal/gpio/stm_gpio.cc:34-55 | writing the field of one pin in a packed register changes what is read for that pin only |
| `Gpio.GpioStm32.SetPinMode` | hal/gpio/stm_gpio.cc:57-187 | the decoded setting of the pin becomes what the mode asks for, and no other pin's changes |
| `Gpio.ModeGivesRole` | hal/gpio/stm_gpio.cc:57-187 | a mode gives the pin just the role, output type and pull resistor that it is named after, as the registers are read by the reference manual, and leaves alone what does not concern it |
| `Gpio.RoleTellsMode` | hal/gpio/stm_gpio.cc:57-187 | the mode can be told from what the pin does, so no two modes do the same, but for an unused pin, which is an analog one whose driver is reset |
| `Gpio.GpioStm32.SetPinModes` | hal/gpio/stm_gpio.cc:57-187 | after any run of calls every pin decodes to its own calls applied in order, from any initial registers |
| `Gpio.GpioStm32.WritePin` | hal/gpio/stm_gpio.cc:189-197 | sets exactly the output bit of the pin |
| `Gpio.ToggledBit` | hal/gpio/stm_gpio.cc:199-203 | a toggle flips the output bit of its pin and keeps all others |
| `Gpio.ToggleTwice` | hal/gpio/stm_gpio.cc:199-203 | a toggle is its own inverse |
| `Bits.GetFieldBit` | bits/bits.h:77-86 | bit `i` of a field is bit `offset + i` of the word |
| `Bits.ModifyFieldBit` | bits/bits.h:114-126 | modifying a field sets the bits of the field and keeps every other bit |
| `Bits.ReadBack` | bits/bits.h:77-126 | a modified field reads back as the value cut to its width |
| `Bits.OtherFieldKept` | bits/bits.h:77-126 | a field that does not overlap reads as before |
| `Base64.Encode` | string/base64.h:33-56 | produces the digits of the number, most significant first |
| `Base64.Decode` | string/base64.h:58-80 | the number modulo 2^64, or the first invalid character |
| `Base64.FirstInvalidAt` | string/base64.h:58-80 | the character reported is the first one outside the alphabet |
| `Base64.NumeralOfDigits` | string/base64.h:33-80 | decoding undoes encoding |
| `Base64.EncodedLength` | string/base64.h:31-56 | at least one and at most eleven characters |
| `Base64.DigitsOfNumeral` | string/base64.h:33-80 | encoding a decoded string gives it back without leading `A`s, or `A` when nothing is left |
| `Base64.EncodeThenDecode` | string/base64.h:33-80 | the methods: every 64-bit number comes back, by way of at most eleven characters |
| `Base64.DecodeThenEncode` | string/base64.h:33-80 | the methods: every valid string whose value fits comes back in canonical form |

## Left out

- Memory order: atomic operations of the ring buffer are sequentially consistent, as the source's defaults
  are; an element copy is one step.
- The ring buffer's callbacks, calls from inside them, more than one producer or consumer, and the wrap of
  its `size_t` pointers.
- RingBuffer.RingBuffer.Peek: the class returns the element itself; how long the pointer that the source
  returns stays good is the subject of `RingProtocol.PeekAcross`.
- SerialWire.SerialWire.SendCommand: the idle clocks after the eighth WAIT are sent as in the source, but
  half-period delays and real time on the wire are not modelled; only the order of edges is.
- Switching a target from JTAG to serial wire (`initialize_swd`), reset lines, and the identification
  check of `initialize_target`.
- The shadow copies of debug port registers that are kept for a debugger to look at, and `fail_step`.
- `power_off`, which repeats `power_on`; `mass_erase` and `erase_page`, which put an unlocking and a locking
  around what is modelled; `write_entire_flash`, which writes rows that do not match the page size;
  `firmware.cc`, which is not built.
- TargetRuns.Perform: block accesses to memory are not among the operations of a run; their contracts keep
  the selected access port, as those of the one-word accesses do.
- FlashController.Program: accepts single words, where the real controller buffers pairs of words.
- Flash.Flash.WritePages: the page counter is a global of the source; here it is a local variable. The
  8-bit page number is a natural number below the number of pages, at most 256. The memory access port is
  selected at the call.
- Scheduler.Scheduler.Start: takes a number of passes, because a scheduler that is never stopped does not
  end; what is proved holds after any number. Clock speeds and real sleeping are left out: a sleep is an
  event of the log, and the clock readings after it are as arbitrary as all others.
- A task that removes its own slot while it runs, a removal out of range and an addition to a full queue
  end the modelled run, as the source leaves the first undefined and ends in `error()` or an exception in
  the others.
- Task.Program.Assign: coroutine bodies are not modelled there; what they do is the arbitrary behaviour of
  `Scheduler`.
- ScaledClock.ScaledClock.UpdateClockables: subsystems are lists of planned events; those that read the
  clock while being updated, deregistration, and floating-point rounding of times are left out. The scale is
  a natural number. `sleep` and the increments read the clock once more and then set it.
- Peripherals: copying or moving a peripheral itself while handles point at it, and `noexcept`.
- Handles.Program.MoveAssign: `std::swap` is modelled with a temporary handle.
- SExprParser.SExprParser.Parse: the tokenizer is a generator in the source; here it delivers all tokens at
  once. A callback gets the frame as it is at that moment, not a reference that grows later.
- IntegerHash: the choice of a hash by the width of a type, and the truncation of a 64-bit hash to a smaller
  `size_t`.
- BoardConfigurations.Generate: `1 << (level + 1)` is a power of two without a limit, where the source's
  `int` would overflow at the thirtieth level; floats are real numbers, so rounding is not modelled.
- BoardMatching.DetermineBoardId: takes any list of configurations, where the source has a fixed one.
- Gpio: the clock of the port and its reset state, which are macros of a library.
