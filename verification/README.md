# A model of the kernel logger, directory streams and system calls

This project models the parts of a small x86 kernel whose behaviour is decided by
interleaving, shared hardware or hand-made memory layouts, and proves what they guarantee
over whole runs.

- **The serial logger** (`SerialDevice`, `Framing`, `Mutex`, `LogProtocol`, `LogOrder`,
  `LogFifo`, `LogPrograms`, `LogProgress`, `LogService`, `SerialLog`). Any number of tasks call
  `log_printf` at once. The protocol is a step system: one step per statement of each task, the
  kernel mutex with its first-come-first-served hand-over, and a 16550-style device whose
  transmit FIFO and shift register drain at arbitrary moments. `log_init` and `log_printf` are also written out
  imperatively, with other tasks and the device running between the statements, and every call
  is shown to be part of a run of the step system.
- **Directory streams** (`DirStream`): `opendir`, `readdir` and `closedir` over byte memory,
  an allocator that may fail and reuses addresses, and a kernel that may fail and writes into
  the handle.
- **System calls** (`Syscall`): typed wrapper, five-word record, reversed pushes, copy through
  the call gate, decoding in the kernel frame, far return.
- **The page bitmap** (`PageBitmap`) and **number formatting** (`Numerals`): the bits packed
  into bytes, the search for free ones with what it really guarantees, who holds which page,
  and the numerals that end up in log lines.

## Reading the logger results

A line order is the sequence of tasks to which the mutex is given. The bytes on COM1 are a
function of that order alone (`LogOrder.RunOutput`), the order is the order in which the calls
reached `mutex_lock` (`LogOrder.LinesInArrivalOrder`), and an order can lose a byte on some
schedule of tasks and device exactly when its backlog exceeds the FIFO
(`LogFifo.LossFreeIff`). The backlog of an order is 3 after a message with text, since each
text byte waits for an empty transmitter and only CR and LF follow unpolled, and grows by 2
with each empty message. `LogPrograms` removes the order from the condition: whether any run
at all can lose a byte is read off the programs.

`LogProgress` is about tasks that log a finite number of messages. `LogService` is about ones
that never stop: messages are added to the programs while they run, every call still returns,
and every moment of such a run is also a moment of a run with finite programs, so that the
other results apply to it.

## Findings

- The first write of `log_init` is commented as disabling all interrupts. It does so only if
  divisor-latch access was off or interrupts were already disabled
  (`SerialDevice.InitialisationEstablishes`).
- Seven consecutive empty messages after one with text overrun the 16-byte FIFO on a slow
  device; six never do (`LogFifo.EmptyRunBound`, `LogFifo.EmptyRunReached`).
- A message that itself contains CR LF is split by any reader of the log
  (`Framing.FramingRoundTrip`).
- `bitmap_alloc_nbits` never looks at the last bit of the run it returns, so for two or more
  bits it can hand out one that is in use; for one bit it is right on every bitmap
  (`PageBitmap.RightIffSingle`). It marks the run as used even when it searched for used bits
  (`PageBitmap.MarksOppositeIff`). The kernel only asks for single free bits.
- When mapping a page fails, `memory_alloc_for_page_dir` passes a user address to
  `addr_free_page` (source/kernel/core/memory.c:355), which expects a physical one. With less
  than 2 GB of memory that address lies behind the last page, nothing is cleared, and the page
  just allocated stays marked (`PageBitmap.FreeBehindLeaks`). The exact condition for a free to
  be harmless is `PageBitmap.FreeMatches` (`PageBitmap.FreeKeepsIff`).

## Model

| member | source | states |
|---|---|---|
| `SerialDevice.StatusBits` | source/kernel/tools/log.c:37 | line status register bit by bit: 0x20 says that the FIFO is empty, 0x40 that the shift register is empty too |
| `SerialDevice.PollSeesEmpty` | source/kernel/tools/log.c:37 | the polling test is true exactly when FIFO and shift register are both empty, whatever the other status bits are |
| `SerialDevice.DrainForSteps` | source/kernel/tools/log.c:37-42 | however long the device runs on its own, it keeps the byte stream and gets closer to empty by one unit of work per step |
| `SerialDevice.InitialisationEstablishes` | source/kernel/tools/log.c:11-23 | from every device state, the seven writes, given by port offset and value, leave divisor 3, 8N1, latch access off, FIFO on and empty; interrupts off if and only if latch access was off on entry or they were off already |
| `Framing.FramingRoundTrip` | source/kernel/tools/log.c:35-42 | splitting the rendered lines at CR LF gives back the messages if and only if no message contains a CR LF |
| `Framing.SplitRender` | source/kernel/tools/log.c:35-42 | the same with an unfinished line behind, including empty messages, ones that end in CR and ones that start with LF |
| `Mutex.OperationsKeepOk` | source/kernel/ipc/mutex.c:22-73 | lock and unlock keep owner, count and waiting list consistent |
| `Mutex.NestedLocks` | source/kernel/ipc/mutex.c:22-73 | over any sequence of lock and unlock by any tasks, the owner keeps the mutex until it has unlocked as often as locked; then the first who has waited owns it once, or it is free |
| `Mutex.KernelMutex.Init` | source/kernel/ipc/mutex.c:13-17 | whatever the storage held, the mutex is free and nobody waits |
| `Mutex.KernelMutex.Lock` | source/kernel/ipc/mutex.c:22-42 | takes, re-enters, or joins the end of the waiting list, and says which tasks block |
| `Mutex.KernelMutex.Unlock` | source/kernel/ipc/mutex.c:47-73 | only the owner's last unlock releases; the first waiter becomes the owner at once |
| `LogProtocol.RunInv` | source/kernel/tools/log.c:24-46 | the control invariant holds in every reachable state of every interleaving |
| `LogProtocol.MutualExclusion` | source/kernel/tools/log.c:34-45 | at most one task is between lock and unlock |
| `LogProtocol.WritesMeetEmptyTransmitter` | source/kernel/tools/log.c:36-39 | a text byte is always written to an empty transmitter, whatever happened since the poll |
| `LogOrder.StepRefines` | source/kernel/tools/log.c:24-46 | forward simulation: the step that gives the mutex away appends the receiver's whole line to the atomic log, every other step leaves it alone |
| `LogOrder.RunRefines` | source/kernel/tools/log.c:24-46 | every run refines the atomic log taken in the order of the mutex |
| `LogOrder.RunOutput` | source/kernel/tools/log.c:24-46 | port plus the owner's unwritten rest is the rendering of the lines so far, and each task's share is counted exactly |
| `LogOrder.WholeLines` | source/kernel/tools/log.c:34-45 | at any moment the port holds whole lines and at most one prefix of the owner's message followed by the bytes 13, 10 |
| `LogOrder.ProgramOrder` | source/kernel/tools/log.c:24-46 | the lines of one task are exactly its first messages in program order |
| `LogOrder.LinesInArrivalOrder` | source/kernel/ipc/mutex.c:34-39 | lines granted, then tasks waiting, are the calls of `mutex_lock` in the order they were made |
| `LogOrder.RealTimeOrder` | source/kernel/tools/log.c:24-46 | a call that returned before another started has its line first |
| `LogOrder.ReaderSeesWholeMessages` | source/kernel/tools/log.c:34-45 | splitting the port at any moment yields exactly the messages of the finished lines |
| `LogFifo.OccupancyBound` | source/kernel/tools/log.c:36-42 | the FIFO never holds more than the backlog of the lines so far |
| `LogFifo.Fidelity` | source/kernel/tools/log.c:34-45 | every byte written is on the wire, in the device or counted as lost; wire, shift register and FIFO are the bytes written if and only if none is lost |
| `LogFifo.NothingLost` | source/kernel/tools/log.c:36-42 | no run of an order whose backlog fits loses a byte |
| `LogFifo.LazyRun` | source/kernel/tools/log.c:36-42 | every order has a run that reaches its backlog or has lost a byte |
| `LogFifo.LossFreeIff` | source/kernel/tools/log.c:36-42 | an order is loss-free on all schedules if and only if its backlog never exceeds the FIFO |
| `LogFifo.EmptyRunBound` | source/kernel/tools/log.c:36-42 | with at most k consecutive empty messages the FIFO holds at most 3 + 2k bytes; with k up to 6 and 16 places nothing is lost |
| `LogFifo.EmptyRunReached` | source/kernel/tools/log.c:36-42 | for every k some run reaches 3 + 2k, or loses a byte if that does not fit |
| `LogPrograms.BacklogWithinCut` | source/kernel/tools/log.c:36-42 | no order of lines does worse than the one that prints all empty messages last |
| `LogPrograms.EmptiesLast` | source/kernel/tools/log.c:36-42 | and that order exists for every point the tasks can be at |
| `LogPrograms.ProgramsLossFreeIff` | source/kernel/tools/log.c:36-42 | no run of the programs loses a byte, on any schedule, if and only if the worst backlog of every cut through them fits the FIFO |
| `LogPrograms.ProgramsFit` | source/kernel/tools/log.c:36-42 | in particular none does if 3 plus twice the sum of each program's longest block of empty messages fits |
| `LogPrograms.TextFirstIff` | source/kernel/tools/log.c:36-42 | for tasks that log a text first, this is the exact condition |
| `LogProgress.StepLowersMeasure` | source/kernel/tools/log.c:34-45 | every step but a failed poll lowers an explicit measure; the others change nothing |
| `LogProgress.SomethingToDo` | source/kernel/tools/log.c:34-45 | in every state of the invariant with work left a productive step is enabled |
| `LogProgress.WorkIsBounded` | source/kernel/tools/log.c:34-45 | no run takes more productive steps than its initial measure |
| `LogProgress.CanFinish` | source/kernel/tools/log.c:24-46 | from every such state the end can be reached |
| `LogProgress.FairRunFinishes` | source/kernel/tools/log.c:24-46 | on every weakly fair endless schedule all calls return, the mutex is free and the device is empty |
| `LogProgress.FairLoggerDelivers` | source/kernel/tools/log.c:24-46 | by then every task's messages are logged in program order, and the wire carries exactly the lines if their backlog fits |
| `LogService.ServiceStep` | source/kernel/ipc/mutex.c:47-73 | while messages keep coming, every step ends a call, brings it closer to its end in a lexicographic rank, or changes nothing for it |
| `LogService.CallReturns` | source/kernel/tools/log.c:24-46 | on every weakly fair endless schedule every call in progress returns, however much the other tasks still log |
| `LogService.MessageReturns` | source/kernel/tools/log.c:24-46 | every message a task is ever given is logged |
| `LogService.SupplyFirst` | source/kernel/tools/log.c:24-46 | giving a task a message commutes with every step of every run |
| `LogService.IsProtocolRun` | source/kernel/tools/log.c:24-46 | every state of an endless run is reached by a run that starts with all the messages given by then |
| `LogService.ServiceDelivers` | source/kernel/tools/log.c:24-46 | so each message appears among the lines in program order, the port holds exactly the lines, and the device all of it if their backlog fits |
| `SerialLog.Logger.LogInit` | source/kernel/tools/log.c:11-23 | from any state of device and mutex: exactly the seven writes, by port offset and value, with the device running in between, and `mutex_init`; both are then set up and the protocol starts |
| `SerialLog.ForeignStep` | source/kernel/tools/log.c:34-45 | what steps of other tasks and the device cannot change for a caller, in particular for the owner of the mutex |
| `SerialLog.Logger.AwaitGrant` | source/kernel/ipc/mutex.c:34-39 | a blocked caller wakes up owning the mutex, for every scheduler and device with finite delays |
| `SerialLog.Logger.PollUntilReady` | source/kernel/tools/log.c:37 | the polling loop ends for every device with finite delays, and is a run of the protocol |
| `SerialLog.Logger.WriteText` | source/kernel/tools/log.c:35-39 | the loop over the buffer writes exactly the text, whatever the others do meanwhile |
| `SerialLog.Logger.LogPrintf` | source/kernel/tools/log.c:24-46 | whoever holds the mutex on entry and whoever else calls meanwhile, the call returns with its text and the bytes 13, 10 last on the port and in one piece, as part of a run of the protocol; the device holds all that was written if the backlog fits; if no other line was granted, the port has grown by the unfinished line and its own |
| `Syscall.EncodeDecode` | source/applib/lib_syscall.c:37-232 | whatever is in unset fields, decoding the record gives the call, for every wrapper and argument |
| `Syscall.RecordWords` | source/kernel/include/core/syscall.h:12-37 | for every wrapper, the call number and which argument goes into which word, all other words untouched |
| `Syscall.PushAllLayout` | source/applib/lib_syscall.c:23-28 | pushing in reverse lays the words out in order and changes nothing at or above the old top |
| `Syscall.EnterLeave` | source/kernel/include/core/syscall.h:42-49 | the kernel frame holds exactly the record; the far return restores both stack pointers |
| `Syscall.FrameLayout` | source/kernel/include/core/syscall.h:42-49 | the nine words on the kernel stack, lowest first: return address, number, four arguments, user stack |
| `Syscall.StackDiscipline` | source/applib/lib_syscall.c:16-35 | after any sequence of calls both stacks are where they were and no word at or above them has changed |
| `Syscall.KernelReceivesCalls` | source/applib/lib_syscall.c:16-184 | over any sequence the kernel decodes exactly the calls made, in order, less every `msleep` of zero or less |
| `Syscall.Cpu.CopyParameters` | source/kernel/cpu/cpu.c:50-53 | the gate copies the parameter words in order |
| `Syscall.Cpu.SysCall` | source/applib/lib_syscall.c:16-35 | pushes and gate together leave the record in the kernel frame, at the places of the frame's structure |
| `Syscall.Cpu.Wrapper` | source/applib/lib_syscall.c:37-46 | a wrapper enters the kernel with its own call, unless it is an `msleep` of zero or less, which changes nothing |
| `Syscall.Cpu.FarReturn` | source/kernel/include/core/syscall.h:45-48 | releases the frame and the five parameters |
| `DirStream.DirRoundTrip` | source/applib/lib_syscall.h:44-54 | a stored `DIR` is read back field by field, the index at its address and the entry four bytes on |
| `DirStream.LiveBlocksAreOpenStreams` | source/applib/lib_syscall.c:186-225 | in every run of a client that closes open streams once, the live blocks are exactly the open streams, and they never overlap |
| `DirStream.CallsArePaired` | source/applib/lib_syscall.c:186-225 | for every address, successful opens minus closes seen by the kernel is 1 if it is an open stream and 0 otherwise |
| `DirStream.ClosePairsIffOpen` | source/applib/lib_syscall.c:217-225 | one more `closedir` keeps the pairing if and only if its stream is open, since the code itself checks nothing |
| `DirStream.EntryIsStable` | source/applib/lib_syscall.c:204-215 | an entry keeps its bytes through any operations on other streams and other writes, until its own stream is read or closed |
| `DirStream.ReadReturnsWhatTheKernelWrote` | source/applib/lib_syscall.c:204-215 | the returned pointer is four bytes into the handle; read there, index, type, name and size are those of the entry the kernel has just stored, and the stream's index lies in front of it |
| `DirStream.Library.OpenStream` | source/applib/lib_syscall.c:186-202 | null on allocation or kernel failure with the block given back; no system call without memory |
| `DirStream.Library.ReadStream` | source/applib/lib_syscall.c:204-215 | handle and handle + 4 go to the kernel; returns handle + 4, where every field of the kernel's entry is found, or null on a negative result |
| `DirStream.Library.CloseStream` | source/applib/lib_syscall.c:217-225 | gives the handle back and returns 0 whatever the kernel answers |
| `PageBitmap.WithBitAt` | source/kernel/tools/bitmap.c:31-49 | bit i of a byte has weight 2 to the i; setting or clearing it leaves the other seven alone |
| `PageBitmap.Bitmap.GetBit` | source/kernel/tools/bitmap.c:45-49 | reads the bit that the packed bytes stand for |
| `PageBitmap.Bitmap.SetBit` | source/kernel/tools/bitmap.c:31-40 | sets the bits asked for as far as they exist, and no others, in the packed bytes |
| `PageBitmap.Bitmap.Search` | source/kernel/tools/bitmap.c:61-94 | finds the first run of all but the last of the bits asked for, or reports that there is none |
| `PageBitmap.Bitmap.AllocNbits` | source/kernel/tools/bitmap.c:61-94 | the same, with the run marked as used whatever was searched for |
| `PageBitmap.RightIffSingle` | source/kernel/tools/bitmap.c:61-94 | the search finds the first run asked for on every bitmap if and only if one bit is asked for |
| `PageBitmap.HandsOutUsedBit` | source/kernel/tools/bitmap.c:76-91 | for every larger count there is a bitmap on which a used bit is handed out |
| `PageBitmap.MarksOppositeIff` | source/kernel/tools/bitmap.c:87-90 | for every count, all the bits found are flipped if and only if free bits were searched for and at least one was asked for |
| `PageBitmap.AddrAlloc.AllocPage` | source/kernel/core/memory.c:40-52 | for every count, 0 and nothing changed, or an address on a page boundary whose page lies inside the pool; its page number starts the first run found, which is marked |
| `PageBitmap.AddrAlloc.FreePage` | source/kernel/core/memory.c:57-64 | for every address and count, clears the bit of the page that the address lies in and of those behind it, in 32-bit arithmetic, and no other |
| `PageBitmap.FreeKeepsIff` | source/kernel/core/memory.c:57-64 | a free keeps the bitmap in step with the pages held if and only if, of the pages held, it touches exactly those given back |
| `PageBitmap.FreeOfRunMatches` | source/kernel/core/memory.c:57-64 | giving back a run of pages by its first address does, for every count |
| `PageBitmap.FreeBehindLeaks` | source/kernel/core/memory.c:352-357 | an address behind the last page clears nothing, so every page that was to be given back stays marked |
| `PageBitmap.AllocKeeps` | source/kernel/core/memory.c:40-52 | an allocation of any count keeps the bitmap in step with the pages held |
| `PageBitmap.AllocExclusiveIff` | source/kernel/core/memory.c:40-52 | it hands out pages nobody holds if and only if nobody holds the last one, which it never looks at |
| `PageBitmap.RightIffDisciplined` | source/kernel/core/memory.c:40-64 | over every run of allocations and frees the bitmap is in step with the pages held, all along, if and only if every free matched |
| `PageBitmap.PagesAreExclusive` | source/kernel/core/memory.c:40-64 | after every such run a single page handed out is held by nobody else, and allocation fails only when all pages are held |
| `PageBitmap.HeldIsAligned` | source/kernel/core/memory.c:40-52 | every page ever handed out starts on a page boundary of the pool |
| `PageBitmap.PagesDoNotOverlap` | source/kernel/core/memory.c:40-64 | no byte belongs to two different pages that are held at once |
| `Numerals.NumeralRoundTrip` | source/kernel/tools/klib.c:147-190 | in bases 2, 8, 10 and 16 every 32-bit number is read back from its numeral, which has only digits of the base, no superfluous zero, and a sign exactly for negative decimals; there is a numeral in no other base |
| `Numerals.ProgressStep` | source/kernel/tools/klib.c:166-179 | C's remainder and quotient peel off the last digit for negative numbers too, the smallest included |
| `Numerals.TurnRound` | source/kernel/tools/klib.c:182-189 | the swaps reverse the digits in place and touch nothing else |
| `Numerals.Itoa` | source/kernel/tools/klib.c:147-190 | in those bases the buffer then holds a NUL-terminated text that denotes the number, in all others an empty one, and is otherwise unchanged |

## Left out

- Scheduling: which task runs when is arbitrary; the ready and sleep lists, time slices and
  task switching are not modelled. Blocked tasks cannot take steps.
- The mutex before tasks exist, when the current task is null, and re-entry from an exception
  handler that logs while its task is inside `log_printf`.
- `kernel_vsprintf`: a message is any NUL-free text of fewer than 128 bytes. Only the numbers
  in it are modelled; texts that do not fit the buffer are excluded.
- The receiver, modem lines, break and loopback of the device. What a 16550 does with a byte
  written to a full FIFO is taken to be that it is dropped.
- Fairness in the imperative part: the delays of the device and of other tasks are finite but
  have no bound.
- The kernel side of each system call, the interrupt and privilege checks of the gate, and
  the handler's own return instruction, which is taken to release five words.
- Syscall.StackDiscipline: covers the words that calling and returning write; what a system
  call such as `read` writes to user memory on purpose is not included.
- The endless loop after `_exit`, and the variadic third argument of `open`, which is ignored
  by the wrapper.
- `malloc` and `free`: any allocator that never overlaps live blocks. The name buffer that
  `opendir` passes is only a pointer.
- The caller of the page allocator: which pages it means to give back is part of the operation,
  and pages are taken to lie inside the 32-bit address space.
- The mutex around the page bitmap, page tables, fork, boot, loader and console code.
