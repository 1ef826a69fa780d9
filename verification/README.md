# A verified model of a three-terminal teaching kernel

The repository is a small 32-bit operating system with six process slots and three terminals that share one
video page, one cursor and one keyboard, together with a read-only file system, a real-time clock that is
divided among the terminals, a C library, and user programs, of which `grep` and the animation `fish` are
modelled here. This project models its harder parts in Dafny and proves what they keep over all runs and
inputs, and, where the code falls short of that, exactly when it does. Cited paths are relative to the root of
the repository. `dafny verify dfyconfig.toml` checks everything.

## How it is built

The state that the C code changes in place is held in classes (`KernelCode.Kernel`, `VideoMemory.Display`,
`LineDiscipline.Keyboard`, `Descriptors.Process`, `Blink.Driver`, `Rtc.Clock`) or in arrays. Every method is
specified by a function on plain values, and the theorems are about these functions.

| files | subject |
|---|---|
| `ProcessTable`, `KernelState`, `KernelCode` | process slots, the scans over them, the kernel as a machine with the steps Tick, Exec, Halt, Write, Store, Read and Key, and its code |
| `Isolation`, `Runs`, `Edges` | what every step means for three private terminals, the theorems about whole runs, and short runs from boot in which the code and its purpose part |
| `Ring`, `Scheduling` | round robin and the nesting of calls |
| `Text`, `Console`, `VideoMemory`, `LineDiscipline`, `Keymap` | wrapping and scrolling, page tables and page copies, the line editor and its echo, scan codes |
| `FileSystem`, `Descriptors`, `Grep` | block-wise reads of flat files, the directory, descriptors as independent streams, and grep on top of them |
| `Blink`, `Rtc`, `Numbers`, `Memory` | the list in a fixed pool, virtual interrupts, number printing, memory routines |

`ProcessTable.Control` is the picture behind the kernel: one call stack for each terminal, the terminal in
front, who has the processor, the page that its output goes to, and who opened whom. `Isolation.Represents` ties the whole
kernel state to such a picture. `Runs.StepRefines` proves that every allowed event keeps the tie and does to
the logical terminals just what its script says; isolation over any run follows by induction. An operation
whose page is the wrong one is in the scripts too: `Isolation.Lost` for the terminal that it is meant for, and
`Isolation.Spill` for the one whose text it lands in. An event is allowed when its caller could cause it; one
guard is added, which `Runs.HaltGuardIsExact` shows to be needed: the first shell halts only while it is on the
screen, and another root shell only while the slot of the process that was running when it was opened has not come
to serve its own terminal.

## Main results

| subject | theorems |
|---|---|
| isolation of the terminals over all runs | `Runs.TerminalsAreIsolated`, `Runs.StepRefines`, `Runs.UndisturbedRunsArePrivate` |
| what every reachable state keeps, and which halts break it | `Runs.ReachableStates`, `Runs.HaltGuardIsExact`, `Runs.ParentIsOpener`, `ProcessTable.ParentChain` |
| when output, cursor and text of a terminal survive | `Runs.OutputIsDeliveredIff`, `Runs.OutputSpillsIff`, `Runs.OpeningKeepsTextIff`, `Runs.OpeningReturnsToTick`, `Runs.AstrayAfterKey` |
| fairness and nesting of calls | `Scheduling.TicksAreFair`, `Scheduling.BalancedRunRestoresStack`, `Scheduling.BalancedCallsRestoreTable` |
| the C code carries out the steps | `KernelCode.Kernel.PitHandler`, `KernelCode.Kernel.HandleKeyboard`, `KernelCode.Kernel.Execute`, `KernelCode.Kernel.Halt` |
| the screen is the tail of the printed document | `Console.ScreenIsTailOfDocument`, `Console.DelUndoesPut` |
| what keys type, after any sequence of scan codes | `Keymap.KeysType`, `Keymap.ModifiersFollowKeys`, `Keymap.NextKeyTypes` |
| the line buffer is a list, and the echo spells it | `LineDiscipline.LineDisciplineIsListEditor`, `LineDiscipline.EchoAgreesWithBuffer` |
| files, directory and descriptors | `FileSystem.ReadData`, `FileSystem.StoredFileIsRead`, `FileSystem.ListedNamesResolve`, `Descriptors.StreamsAreIndependent` |
| grep is the search line by line, exactly when | `Grep.GrepIsExact`, `Grep.TrapIsExact`, `Grep.EntryIsExact`, `Grep.OutputIsNaive`, `Grep.Program` |
| the blink list in its pool, its rhythm and its screen | `Blink.PoolAndListAgree`, `Blink.AddKeepsListIff`, `Blink.BlinkIsSeen`, `Blink.ScreenStaysFaithfulIff` |
| virtual interrupts | `Rtc.InterruptsAreServed`, `Rtc.FlagIsSetIff` |
| numerals and memory routines | `Numbers.NumeralParses`, `Numbers.ParsedPrintsAgain`, `Memory.MemcpyIsRightIff`, `Memory.Memmove` |

## Where the code and its purpose part

These are results of the proofs; each is a theorem with an exact condition or a concrete case.

- The first shell may exit only while it is on the screen: idt_exceptions_syscalls.c:212 puts slot 0 on the
  screen whoever is there (`ProcessTable.RerootIff`, `Edges.FirstShellExitsBehind`).
- The test for a root shell at idt_exceptions_syscalls.c:130 reads a parent slot that may be in use again
  (`ProcessTable.ReusedParentBreaks`, `Edges.ShellWithReusedParentExits`).
- After Alt-Fn has brought the running process to the front, keyboard.c:311-313 maps its hidden page again, so
  that its output is lost until the next tick (`Runs.OutputIsDeliveredIff`, `Runs.AstrayAfterKey`,
  `Edges.AstrayOutputIsLost`).
- Opening a terminal clears the global cursor without saving it, so that a process in front finds its cursor where
  it was at the latest tick (`Runs.OpeningKeepsCursorIff`, `Runs.OpeningReturnsToTick`,
  `Edges.OpeningMovesTheCursor`). In that time before the tick it blanks the text of the terminal in front instead of
  the new one (`Runs.OpeningKeepsTextIff`, `Runs.OpenedIsClearIff`, `Edges.AstrayTextIsErased`), and the new shell,
  which inherits the mapping, prints into the text of the other terminal (`Runs.OpenedAstrayPrintsElsewhere`,
  `Edges.ThirdShellPrintsElsewhere`).
- A halt of the last process of a terminal does not have to be followed by a tick at once: the process waits in
  its loop, and every key that comes in between is accounted for (`spinning` in `ProcessTable.Control`).
- A read with less room than the line keeps the front of the line, not the rest of it, contrary to the comment
  at keyboard.c:385 (`LineDiscipline.ReadIsExact`); one of negative size waits for a line, takes nothing and
  unlocks it, so that it can be typed on behind its newline (`LineDiscipline.ReadKeepsSoundIff`).
- `grep` cuts lines of more than 1024 bytes (`Grep.GrepIsExact`) and depends on an uninitialised byte behind its
  buffer: when that holds a newline, it is right exactly under another condition (`Grep.TrapIsExact`,
  `Grep.TrapLosesALine`). It finds nothing for an empty pattern, nor, as ece391grep.c:43 compares a signed character
  with a byte, for one that begins with a byte from 128 on (`Grep.GrepIsExact`, `Grep.AccentsAreNotFound`). It stops
  at a directory entry without a name (`Grep.FileBehindNamelessIsMissed`), does not read files whose names begin
  with `rtc` (`Grep.EntryIsExact`, `Grep.RtcFileIsMissed`), and reads the first of two files with the same name twice
  (`Grep.SecondOfANameIsMissed`).
- Names that begin with `rtc` or a dot open the clock or the directory, whatever follows
  (`Descriptors.ListedNameOpensIff`).
- An open of the clock on one terminal takes away the interrupts that the readers of others have not yet seen
  (`Rtc.InterruptIsLostIff`, `Rtc.OpenLosesInterrupt`), and `rtc_write` takes rates that are no powers of two,
  contrary to its comments (`Rtc.Clock.Write`).
- Location 0 marks a free slot of the blink pool but is accepted by `mp1_ioctl_add`, and the list then ends in a
  circle (`Blink.AddKeepsListIff`, `Blink.ZeroMakesACircle`). The conditional move in `mp1_ioctl_sync` never
  moves, so that the screen can be wrong until the next toggle (`Blink.SyncShowsRightlyIff`,
  `Blink.ScreenStaysFaithfulIff`).
- `memcpy` is right for all contents exactly when the destination does not begin inside the source, or for one
  aligned word (`Memory.MemcpyIsRightIff`).

## Model

| member | source | states |
|---|---|---|
| Runs.TerminalsAreIsolated | student-distrib/devices/keyboard.c:136-533 | after any run of ticks, keys, executes, halts, reads, writes and stores, the logical screen, cursor and line buffer of every terminal are those of a private terminal that was fed this terminal's operations in order; an operation that another terminal performs on its text, because the mapping has gone astray to its page, is one of them |
| Runs.StepRefines | student-distrib/devices/keyboard.c:136-533 | one allowed event keeps the relation between the process table and three call stacks, and shows every terminal exactly the operations that the event means for it |
| Runs.HaltStep | student-distrib/idt_exceptions_syscalls/idt_exceptions_syscalls.c:117-158 | the same for each of the three ways in which a halt can go |
| Runs.KeyStep | student-distrib/devices/keyboard.c:136-319 | the same for a key, whether it types, clears, switches to a terminal, opens one or fails to |
| Runs.UndisturbedRunsArePrivate | student-distrib/devices/keyboard.c:311-317 | if nothing is drawn between an Alt-Fn that brings the running process to the front and the next tick, and no terminal is opened over a running one, no operation of any terminal is lost or reaches another one and no cursor jumps |
| Runs.BootRepresents | student-distrib/idt_exceptions_syscalls/idt_exceptions_syscalls.c:208-218 | the relation holds when the first shell starts |
| Runs.ReachableStates | student-distrib/devices/pit.c:38-50 | in every reachable state slot 0 is allocated, exactly one allocated process is on the screen and it is active, every terminal with a process has exactly one active one, free slots are idle, the table stands for call stacks, the program page is the frame of the running process, the first push below esp0 rounds to its PCB, and the kernel and user video entries name one physical page |
| Runs.FramesAndStacksAreDisjoint | student-distrib/idt_exceptions_syscalls/pcb.c:72-74 | different process numbers have disjoint 4 MB frames and disjoint 8 KB kernel stacks, and no esp0 leads to two PCBs |
| Runs.StackAfter | student-distrib/idt_exceptions_syscalls/idt_exceptions_syscalls.c:150-226 | after every event, where the kernel stack of the running process begins: 4 bytes below its top for a process that was entered, at its top after a return, and else where it was |
| Runs.HaltGuardIsExact | student-distrib/idt_exceptions_syscalls/idt_exceptions_syscalls.c:117-158 | a halt leaves a table that stands for call stacks if and only if its guard holds: slot 0 only while on screen, another root shell only while the slot of the process that was running when it was opened has not come to serve its own terminal |
| Runs.OpenedShellRecordsRunning | student-distrib/devices/keyboard.c:461-475 | a newly opened shell records the process that was running as its parent, on whatever terminal that was, and serves the terminal asked for |
| Runs.ParentIsOpener | student-distrib/idt_exceptions_syscalls/idt_exceptions_syscalls.c:117-135 | over any run in which its slot stays in use, the recorded parent of a process is the one that was running when it was created, and its terminal does not change |
| Runs.OutputIsDeliveredIff | student-distrib/devices/keyboard.c:311-313 | every character that the running process prints reaches the screen of its terminal if and only if the process is not on the screen with another page mapped |
| Runs.OutputSpillsIff | student-distrib/devices/keyboard.c:402-417 | what the running process prints changes the text of another terminal if and only if the process is on the screen and mapped to that one's page |
| Runs.AstrayFacts | student-distrib/devices/keyboard.c:311-313 | in every represented state the process is on the screen exactly when its terminal is in front and it has not exited, and clearing goes to the visible page unless the mapping is astray |
| Runs.AstrayAfterKey | student-distrib/devices/keyboard.c:144-317 | a key leads the mapping astray exactly when it brings the running process to the front from behind, and leads it back exactly when it switches to another open terminal |
| Runs.TickEndsAstray | student-distrib/devices/pit.c:44-50 | the next tick always repairs the mapping |
| Runs.AfterOpening | student-distrib/devices/keyboard.c:485-495 | what opening a terminal makes of each of the three: the line stays, the text stays unless the clearing goes to its page, and the cursor goes to the corner, falls back to the last saved one or stays |
| Runs.OpeningKeepsCursorIff | student-distrib/devices/keyboard.c:492 | the cursor of the terminal in front survives the opening of another one if and only if the running process is behind or the cursor has not moved since it was saved |
| Runs.TickSavesCursors | student-distrib/devices/keyboard.c:524-533 | a tick saves the cursor of every terminal where its user sees it, also when it comes back to the same terminal |
| Runs.SavedAfter | student-distrib/devices/keyboard.c:524-533 | after any event, what is saved for the terminal that has the processor is its cursor, if the event was a tick or a key that the running process did not see on its screen, and else what was saved before |
| Runs.OpeningReturnsToTick | student-distrib/devices/keyboard.c:475-492 | opening a terminal over a running process puts its cursor back to where it was at the latest tick, however far output and keys have moved it since |
| Runs.OpeningAfterTickKeepsCursors | student-distrib/devices/keyboard.c:475-492 | directly after a tick, opening a terminal moves the cursor of no other one |
| Runs.OpeningKeepsTextIff | student-distrib/devices/keyboard.c:479-492 | opening a terminal keeps the text of another one if and only if the mapping has not gone astray to its page or there is no text |
| Runs.OpenedIsClearIff | student-distrib/devices/keyboard.c:479-492 | the new terminal is clear if and only if the mapping is not astray or it was blank before |
| Runs.OpenedAstrayPrintsElsewhere | student-distrib/devices/keyboard.c:475-495 | after a terminal was opened astray nothing that its shell prints is seen there, and the text of another terminal changes if and only if it is the one whose page is mapped |
| Isolation.TickKeeps | student-distrib/devices/pit.c:32-52 | a tick keeps the relation and moves the processor to the next active process |
| Isolation.TickShows | student-distrib/devices/pit.c:44-52 | a tick changes no terminal: page entries and the cursor hand-over cancel out |
| Isolation.ExecKeeps | student-distrib/idt_exceptions_syscalls/idt_exceptions_syscalls.c:184-226 | execute pushes one process on the stack of the running terminal, or changes nothing when it fails |
| Isolation.ExecShows | student-distrib/idt_exceptions_syscalls/idt_exceptions_syscalls.c:197-208 | execute changes no screen, cursor or line |
| Isolation.WriteShows | student-distrib/devices/keyboard.c:402-417 | a printed character is one operation of the running terminal and of no other, unless the mapping is astray: then it is lost to the one and spilled on the other |
| Isolation.StoreShows | student-distrib/filesystem/paging.c:98-111 | so is a store through the vidmap page |
| Isolation.ReadShows | student-distrib/devices/keyboard.c:358-394 | a read takes the line of the running terminal and of no other |
| Isolation.RerootKeeps | student-distrib/idt_exceptions_syscalls/idt_exceptions_syscalls.c:120-127 | the first shell starts again in slot 0 while it is on the screen |
| Isolation.ReturnKeeps | student-distrib/idt_exceptions_syscalls/idt_exceptions_syscalls.c:128-156 | a halt to a parent on the same terminal pops the stack and maps the parent |
| Isolation.ReturnShows | student-distrib/idt_exceptions_syscalls/idt_exceptions_syscalls.c:137-156 | and changes no terminal |
| Isolation.LeaveKeeps | student-distrib/idt_exceptions_syscalls/idt_exceptions_syscalls.c:130-135 | a halt of the last process of a terminal empties its stack and brings terminal 0 to the front |
| Isolation.LeaveShows | student-distrib/idt_exceptions_syscalls/idt_exceptions_syscalls.c:130-135 | and changes no terminal, though the page copies and the mapping of the halted process are in between |
| Isolation.StayKeeps | student-distrib/devices/keyboard.c:136-319 | a key that switches nothing keeps the relation, whichever process it interrupts |
| Isolation.StayShows | student-distrib/devices/keyboard.c:144-317 | such a key acts in the handler's own state, with the page entries and the cursor exchanged and restored around it |
| Isolation.LookedShows | student-distrib/devices/keyboard.c:144-304 | what it does is one operation of the terminal in front and of no other, or of the terminal whose page is mapped if that is astray |
| Isolation.FocusedKeeps | student-distrib/devices/keyboard.c:497-522 | switching to an existing terminal moves the focus and nothing else of the stacks |
| Isolation.FocusedShows | student-distrib/devices/keyboard.c:502-522 | and changes no terminal: the two page copies exchange what is visible and what is kept |
| Isolation.OpenKeeps | student-distrib/devices/keyboard.c:439-495 | opening a terminal starts a stack of one shell there |
| Isolation.OpenShows | student-distrib/devices/keyboard.c:475-492 | the clearing reaches the terminal whose page is mapped, the cursor in front falls back, and nothing else changes |
| ProcessTable.TableInvariant | student-distrib/idt_exceptions_syscalls/idt_exceptions_syscalls.c:117-231 | a table that stands for call stacks has slot 0 allocated, exactly one allocated on-screen process, which is active, exactly one active process for every terminal that has any, and idle free slots |
| ProcessTable.ParentChain | student-distrib/idt_exceptions_syscalls/idt_exceptions_syscalls.c:184-219 | inside a terminal the recorded parents lead one place down the stack each time, so that the processes form one chain to the root |
| ProcessTable.Addresses | student-distrib/devices/keyboard.c:460-470 | the hidden text pages lie at 0xB9000, 0xBA000 and 0xBB000, and the PCBs from 0x7FE000 down to 0x7F4000 |
| ProcessTable.SlotAgrees | student-distrib/idt_exceptions_syscalls/pcb.c:11-90 | per slot: allocated, active and on-screen flags say where the slot is in the stacks |
| ProcessTable.ScansAgree | student-distrib/idt_exceptions_syscalls/pcb.c:22-90 | the scans find the lowest free slot, the next active process of the ring and the process and terminal in front |
| ProcessTable.TerminalScan | student-distrib/idt_exceptions_syscalls/pcb.c:11-20 | the scan for a terminal finds the top of its stack, and nothing exactly if the stack is empty |
| ProcessTable.SomeTop | student-distrib/idt_exceptions_syscalls/pcb.c:37-51 | the ring walk always finds an active process |
| ProcessTable.ForkPushes | student-distrib/idt_exceptions_syscalls/idt_exceptions_syscalls.c:197-219 | the PCB updates of execute push the new process on its terminal's stack |
| ProcessTable.HaltPops | student-distrib/idt_exceptions_syscalls/idt_exceptions_syscalls.c:128-145 | those of halt pop it |
| ProcessTable.OpenStacks | student-distrib/devices/keyboard.c:446-483 | those of a new terminal start its stack and take the focus |
| ProcessTable.FocusKeeps | student-distrib/devices/keyboard.c:497-510 | those of a switch move the focus alone |
| ProcessTable.TickSchedules | student-distrib/devices/pit.c:32-52 | the active process that the walk finds is the top of a stack, and its terminal is where the processor goes |
| ProcessTable.LeaveHolds | student-distrib/idt_exceptions_syscalls/idt_exceptions_syscalls.c:128-134 | those of a halt towards another terminal drop the stack |
| ProcessTable.RerootIff | student-distrib/idt_exceptions_syscalls/idt_exceptions_syscalls.c:120-127 | the first shell may exit and start again if and only if it is on the screen: otherwise no picture of call stacks fits the table |
| ProcessTable.ReusedParentBreaks | student-distrib/idt_exceptions_syscalls/idt_exceptions_syscalls.c:130-145 | a root shell whose parent slot is in use again on the same terminal returns to a slot that no stack owns |
| Ring.OrderRotates | student-distrib/idt_exceptions_syscalls/pcb.c:37-51 | the order of the active slots seen from the slot that was found is the old order turned by one |
| Ring.OrderOnce | student-distrib/idt_exceptions_syscalls/pcb.c:37-51 | the walk meets every marked slot once |
| Scheduling.NextIsHead | student-distrib/idt_exceptions_syscalls/pcb.c:37-51 | the process found is the head of the cyclic order after the current one |
| Scheduling.TickChooses | student-distrib/devices/pit.c:32-41 | a tick always finds someone to run, and runs the cyclic successor |
| Scheduling.OnlyTicksSchedule | student-distrib/devices/pit.c:23-61 | no other event hands over the processor unless it changes who is active |
| Scheduling.TicksFollowOrder | student-distrib/devices/pit.c:23-61 | while the active set stays the same, the ticks of a run follow the cyclic order, whatever happens between them |
| Scheduling.TicksAreFair | student-distrib/devices/pit.c:23-61 | as many ticks as there are active processes choose each of them exactly once, and there are one to three of them |
| Scheduling.AtMostThree | student-distrib/idt_exceptions_syscalls/idt_exceptions_syscalls.c:205-207 | one active process for each terminal makes at most three |
| Scheduling.BottomSurvives | student-distrib/idt_exceptions_syscalls/idt_exceptions_syscalls.c:117-231 | whatever is interleaved, the part of a stack that a run never pops is as before |
| Scheduling.BalancedRunRestoresStack | student-distrib/idt_exceptions_syscalls/idt_exceptions_syscalls.c:117-231 | a balanced run restores the stack of a terminal, however the terminals are interleaved |
| Scheduling.StacksDetermineFlags | student-distrib/idt_exceptions_syscalls/idt_exceptions_syscalls.c:137-145 | the stacks and the focus determine which slots are allocated, active and on the screen |
| Scheduling.BalancedCallsRestoreTable | student-distrib/idt_exceptions_syscalls/idt_exceptions_syscalls.c:117-231 | a balanced nest of execute and halt restores the allocated slots, their flags and the running process |
| Edges.FirstShellBehind | student-distrib/devices/keyboard.c:439-495 | a run from boot (Alt, F2, tick) in which the first shell runs behind another terminal |
| Edges.FirstShellExitsBehind | student-distrib/idt_exceptions_syscalls/idt_exceptions_syscalls.c:122-127 | if that shell exits, no picture of call stacks fits the table any more |
| Edges.AltF1LeadsAstray | student-distrib/devices/keyboard.c:311-313 | if Alt-F1 brings it to the front, it stays mapped to its hidden page until the next tick |
| Edges.AstrayOutputIsLost | student-distrib/devices/keyboard.c:311-313 | there a character that it prints does not reach its screen |
| Edges.AstrayTextIsErased | student-distrib/devices/keyboard.c:479-492 | a run from boot (Alt, F2, tick, F1, F3) after which all the text that terminal 0 showed since boot is gone |
| Edges.ThirdShellPrintsElsewhere | student-distrib/devices/keyboard.c:475-495 | and what the third shell then prints lands in the text of terminal 0 and never in its own |
| Edges.OpeningMovesTheCursor | student-distrib/devices/keyboard.c:492 | from boot with the cursor anywhere but in the corner, Alt-F2 makes terminal 0 lose its cursor |
| Edges.ShellWithReusedParentExits | student-distrib/idt_exceptions_syscalls/idt_exceptions_syscalls.c:130-145 | a run from boot in which the shell of terminal 1 exits towards a parent slot that was used again, and the table breaks |
| KernelCode.Kernel.constructor | student-distrib/idt_exceptions_syscalls/pcb.c:5 | the globals as loaded are the state before the first process |
| KernelCode.Kernel.FindTerminalPid | student-distrib/idt_exceptions_syscalls/pcb.c:11-20 | the scan in PCB order finds the least slot that is allocated, active and on that terminal |
| KernelCode.Kernel.FindOnscreenTerminalNum | student-distrib/idt_exceptions_syscalls/pcb.c:26-35 | finds the terminal of the first process on the screen |
| KernelCode.Kernel.FindOnscreenTerminalPid | student-distrib/idt_exceptions_syscalls/pcb.c:57-66 | finds the first allocated slot on the screen |
| KernelCode.Kernel.FindNextActivePcb | student-distrib/idt_exceptions_syscalls/pcb.c:37-51 | walking down by addresses and wrapping at the last PCB finds the cyclic successor |
| KernelCode.Kernel.GetProcessId | student-distrib/idt_exceptions_syscalls/pcb.c:81-90 | takes the lowest free slot and changes nothing else, or answers that there is none |
| KernelCode.Kernel.SetupPcb | student-distrib/idt_exceptions_syscalls/pcb.c:97-100 | writes number, parent and kernel stack of one PCB and nothing else |
| KernelCode.Kernel.SwitchCursor | student-distrib/devices/keyboard.c:525-533 | saves the cursor of one terminal and loads that of another, also if they are the same; what it saves on a tick is `Runs.TickSavesCursors` |
| KernelCode.Kernel.PitHandler | student-distrib/devices/pit.c:23-61 | carries out the tick step on the whole state: program page, kernel stack, both video entries, cursor, running process |
| KernelCode.Kernel.InheritPcb | student-distrib/idt_exceptions_syscalls/idt_exceptions_syscalls.c:198-219 | the child takes over terminal, focus and activity of its parent |
| KernelCode.Kernel.FirstPcb | student-distrib/idt_exceptions_syscalls/idt_exceptions_syscalls.c:209-219 | the PCB of the first shell |
| KernelCode.Kernel.EnterProcess | student-distrib/idt_exceptions_syscalls/idt_exceptions_syscalls.c:189-226 | everything execute sets up for its slot |
| KernelCode.Kernel.Execute | student-distrib/idt_exceptions_syscalls/idt_exceptions_syscalls.c:178-231 | carries out the execute step, including both ways to fail |
| KernelCode.Kernel.OpenPcb | student-distrib/devices/keyboard.c:460-483 | the PCB of the first shell of a terminal, whose recorded parent is the running process (`Runs.OpenedShellRecordsRunning`), and who loses the screen |
| KernelCode.Kernel.StartShell | student-distrib/devices/keyboard.c:451-493 | page, stack, PCB, page exchange and clearing for a new terminal |
| KernelCode.Kernel.OpenTerminal | student-distrib/devices/keyboard.c:439-495 | starts a shell, or fails for want of the file or of a slot |
| KernelCode.Kernel.Refocus | student-distrib/devices/keyboard.c:506-507 | moves the on-screen flag, also from a process to itself |
| KernelCode.Kernel.SwitchTerminal | student-distrib/devices/keyboard.c:426-523 | carries out the switch step with its three outcomes |
| KernelCode.Kernel.ReturnToParent | student-distrib/idt_exceptions_syscalls/idt_exceptions_syscalls.c:137-156 | gives terminal, focus and activity back to the parent and maps it |
| KernelCode.Kernel.LeaveTerminal | student-distrib/idt_exceptions_syscalls/idt_exceptions_syscalls.c:128-134 | switches to terminal 0 and frees the slot; the process then waits for the tick |
| KernelCode.Kernel.Halt | student-distrib/idt_exceptions_syscalls/idt_exceptions_syscalls.c:117-158 | carries out the halt step in all three cases |
| KernelCode.Kernel.TrackKeys | student-distrib/devices/keyboard.c:160-223 | the modifier state and the repeat counter, also after a double scan code |
| KernelCode.Kernel.BringFront | student-distrib/devices/keyboard.c:144-155 | the visible page and the cursor of the terminal in front are brought in if the running process is behind |
| KernelCode.Kernel.PutBack | student-distrib/devices/keyboard.c:311-317 | the interrupted process gets its own page and cursor back |
| KernelCode.Kernel.Press | student-distrib/devices/keyboard.c:270-304 | edits and echoes on the terminal in front |
| KernelCode.Kernel.Act | student-distrib/devices/keyboard.c:225-304 | clears, types, switches or complains |
| KernelState.Complaints | student-distrib/devices/keyboard.c:224-246 | the three messages for a terminal that cannot be opened |
| KernelCode.Kernel.ReadKey | student-distrib/devices/keyboard.c:157-308 | decodes a scan code and acts on it |
| KernelCode.Kernel.HandleKeyboard | student-distrib/devices/keyboard.c:136-319 | carries out the key step on the whole state |
| KernelCode.Kernel.WriteByte | student-distrib/devices/keyboard.c:411-415 | prints one byte, unless it is 0 |
| KernelCode.Kernel.TerminalRead | student-distrib/devices/keyboard.c:358-394 | takes the line of the running process's own terminal, for every size, also a negative one, and answers how many bytes came from it |
| KernelCode.Kernel.UserStore | student-distrib/filesystem/paging.c:160-173 | a store through the user's page changes one cell of the page it is mapped to |
| VideoMemory.Display.constructor | student-distrib/filesystem/paging.c:24-46 | after set-up the video entries name the visible page |
| VideoMemory.Display.SetupPagerTable | student-distrib/filesystem/paging.c:24-46 | exactly the four video pages and the last entry of the table are present, the last one as a second name of the visible page |
| VideoMemory.BootMapping | student-distrib/filesystem/paging.c:20-60 | in addresses: present are the pages from 0xB8000 to 0xBBFFF, each as itself, and 0x3FF000 as 0xB8000 |
| VideoMemory.Display.MapVideo | student-distrib/devices/pit.c:44-50 | points both video addresses at one physical page |
| VideoMemory.Display.CopyScreen | student-distrib/filesystem/paging.c:182 | copies one physical page to another through the page table and leaves the rest |
| VideoMemory.Display.SwitchKernelMemory | student-distrib/filesystem/paging.c:181-184 | keeps the visible page at one address and shows the page kept at another, whatever the kernel's own video entry says |
| VideoMemory.Display.Clear | student-distrib/lib.c:32-38 | blanks the page behind the video address and no other |
| VideoMemory.Display.ScreenSetXY | student-distrib/lib.c:50-62 | moves the cursor, if the place exists |
| VideoMemory.Display.ClearScreen | student-distrib/lib.c:40-44 | blank page and cursor at the origin |
| VideoMemory.Display.MoveRowsUp | student-distrib/lib.c:314-319 | copying column by column in place moves every row up and loses row 0 alone |
| VideoMemory.Display.ClearLastRow | student-distrib/lib.c:320-323 | blanks the last row only |
| VideoMemory.Display.VidScrollUp | student-distrib/lib.c:311-328 | the page is scrolled by one row |
| VideoMemory.Display.PutC | student-distrib/lib.c:263-282 | writes, wraps, breaks and scrolls as the console does |
| VideoMemory.Display.Puts | student-distrib/lib.c:250-257 | prints the characters in order |
| VideoMemory.Display.DelC | student-distrib/lib.c:289-304 | steps back, also to the row before, and blanks that cell |
| VideoMemory.MovedAll | student-distrib/lib.c:314-319 | the column-major copies together are the row-wise shift |
| Console.ScreenIsTailOfDocument | student-distrib/lib.c:263-282 | after clearing the screen and any output the 80x25 cells are exactly the last 25 rows of that output wrapped at 80 columns, with the cursor at its end |
| Console.ViewportAdvance | student-distrib/lib.c:263-282 | one more character keeps the screen the tail of the document |
| Console.CellsNewRow | student-distrib/lib.c:311-328 | a new row scrolls a full page by one row and leaves another page alone |
| Console.CellsWrite | student-distrib/lib.c:267-272 | a character at the end of the document is a character under the cursor |
| Console.DelUndoesPut | student-distrib/lib.c:289-304 | deleting takes back a printed character: cursor and cells are as before, but for the blank and a scroll in between |
| Text.WrapSnoc | student-distrib/lib.c:263-273 | how one more character changes a wrapped text |
| LineDiscipline.Keyboard.constructor | student-distrib/devices/keyboard.c:111-127 | an empty, unlocked line |
| LineDiscipline.Keyboard.Accept | student-distrib/devices/keyboard.c:295-297 | a character is echoed and appended |
| LineDiscipline.Keyboard.AcceptTab | student-distrib/devices/keyboard.c:278-285 | a tab is echoed and appended as four spaces |
| LineDiscipline.Keyboard.Press | student-distrib/devices/keyboard.c:270-304 | buffer and display change together as the editor says, in every branch |
| LineDiscipline.Keyboard.Read | student-distrib/devices/keyboard.c:373-392 | for every size, also a negative one: hands over what is in the line, fills up with NULs, keeps what was not asked for and unlocks |
| LineDiscipline.TypeEditsList | student-distrib/devices/keyboard.c:270-304 | every key edits the buffer as a list of at most 127 characters with one final newline, and locks exactly on it |
| LineDiscipline.EmptyLineIsSound | student-distrib/devices/keyboard.c:111-127 | the line at boot is empty and unlocked |
| LineDiscipline.ReadIsExact | student-distrib/devices/keyboard.c:377-391 | a read of a size that is not negative hands over the front of the line and keeps a front of it; it returns the whole line and empties it if and only if it has room for it |
| LineDiscipline.ReadKeepsSoundIff | student-distrib/devices/keyboard.c:377-391 | a read leaves a sound line if and only if its size is not negative; a negative one takes nothing and unlocks a finished line |
| LineDiscipline.LineDisciplineIsListEditor | student-distrib/devices/keyboard.c:270-394 | from any state, any run of keys and of reads of any size, negative ones too, returns what the list editor with its lock returns |
| LineDiscipline.EchoPut | student-distrib/devices/keyboard.c:295-297 | an echoed character keeps the cells before the cursor equal to the buffer, over wraps and scrolls |
| LineDiscipline.EchoDel | student-distrib/devices/keyboard.c:274-277 | so does a deleted one |
| LineDiscipline.EchoAgreesWithBuffer | student-distrib/devices/keyboard.c:270-304 | over any run of keys without a newline the cells just before the cursor spell the buffer |
| Keymap.HeldKey | student-distrib/devices/keyboard.c:160-309 | a held key acts when it goes down and from its fourth repetition on; modifiers never repeat |
| Keymap.KeysType | student-distrib/devices/keyboard.c:256-268 | without ctrl and alt every key types the character that is printed on it: of a letter the capital if and only if exactly one of shift and caps lock is on, of a sign the upper one if and only if shift is on, and the other keys the same in every case |
| Keymap.ControlKeys | student-distrib/devices/keyboard.c:215-255 | with ctrl only L does something, with alt only the first three function keys |
| Keymap.ModifiersFollowKeys | student-distrib/devices/keyboard.c:159-212 | after any sequence of scan codes shift, ctrl and alt are on if and only if one of their keys is held down, where shift codes behind a double code and repetitions do not count, and caps lock changes with each press |
| Keymap.NextKeyTypes | student-distrib/devices/keyboard.c:159-268 | so that a key pressed after any sequence of scan codes types what the held keys make of it |
| FileSystem.FlatInBlock | student-distrib/filesystem/filesystem.c:70-78 | a stretch of the flat file inside one block is that stretch of the block its block number leads to |
| FileSystem.StoredFileIsRead | student-distrib/filesystem/filesystem.c:13-18 | in a module laid out as boot block, inodes and data blocks, a file whose contents were put into the data blocks that its inode lists is what is read |
| FileSystem.CopyIn | student-distrib/filesystem/filesystem.c:81 | a memcpy into a caller's buffer |
| FileSystem.CopyBlock | student-distrib/filesystem/filesystem.c:81 | one memcpy makes the copied stretch of the file longer |
| FileSystem.CopyNext | student-distrib/filesystem/filesystem.c:78-91 | one turn of the loop copies to the end of the block or of what is wanted, and then stands at the start of the next block |
| FileSystem.CopyBlocks | student-distrib/filesystem/filesystem.c:76-93 | the loop copies as many bytes of the flat file from the offset on as it was given, whatever blocks they lie in |
| FileSystem.ReadData | student-distrib/filesystem/filesystem.c:63-94 | reads as many bytes of the flat file from the offset on as were asked for and are there, puts them in place and touches nothing else; -1 beyond the end |
| FileSystem.Strncmp | student-distrib/lib.c:564-578 | answers 0 if and only if the strings agree up to a NUL or the given length, and else the difference of the first signed characters that differ |
| FileSystem.CharValueIsByte | student-distrib/lib.c:564-578 | the signed value of a character is its byte up to a multiple of 256 |
| FileSystem.ReadDentryByName | student-distrib/filesystem/filesystem.c:41-56 | the entry with the least index of that name, also for names of 32 characters without a NUL; too long and missing names are told apart |
| FileSystem.Strncpy | student-distrib/lib.c:601-612 | the string cut at the length or filled up with NULs |
| FileSystem.DirRead | student-distrib/filesystem/system_calls.c:83-108 | delivers the name of the entry at the position and moves on; nothing behind the last entry; a negative size counts as a large one for a name with a NUL |
| FileSystem.OverrunsIff | student-distrib/filesystem/system_calls.c:83-108 | the sizes left out are those for which two gigabytes or more would be copied |
| FileSystem.SignedIsWord | student-distrib/filesystem/system_calls.c:83-108 | the signed and the unsigned view of a size agree up to a multiple of 2 to the 32nd |
| FileSystem.EntryIsName | student-distrib/filesystem/system_calls.c:98-105 | what is delivered to 32 bytes of room is the name of the entry |
| FileSystem.ListingIsDirectory | student-distrib/filesystem/system_calls.c:83-108 | reading on and on gives every name once, in order, and then nothing for ever |
| FileSystem.ListedNamesResolve | student-distrib/filesystem/filesystem.c:41-56 | every name so read is found again, at the least index that carries it |
| FileSystem.StringLength | student-distrib/lib.c:391-396 | counts the characters before the NUL |
| Descriptors.OpenTakesLowest | student-distrib/idt_exceptions_syscalls/idt_exceptions_syscalls.c:275-318 | open answers the lowest free descriptor and changes that one only, or fails, for want of a descriptor or of the name, and changes nothing |
| Descriptors.ConsoleReads | student-distrib/idt_exceptions_syscalls/idt_exceptions_syscalls.c:239-250 | descriptor 0, and no other, reads the line from the keyboard; descriptor 1 cannot be read |
| Descriptors.ListedNameOpensIff | student-distrib/idt_exceptions_syscalls/idt_exceptions_syscalls.c:275-318 | opening a listed name gives a descriptor at the beginning of that entry's file if and only if a descriptor is free, the name begins with neither rtc nor a dot, and no earlier entry of that name leads to another file |
| Descriptors.SpecialNameOpens | student-distrib/idt_exceptions_syscalls/idt_exceptions_syscalls.c:282-300 | a name that begins with rtc opens the clock and one that begins with a dot the directory, if a descriptor is free and, for the directory, there is an entry of the name "." |
| Descriptors.CloseFrees | student-distrib/idt_exceptions_syscalls/idt_exceptions_syscalls.c:326-337 | closing frees exactly the descriptor that is closed; 0, 1 and a free one are refused, and a free one cannot be read |
| Descriptors.ServedIsValid | student-distrib/idt_exceptions_syscalls/idt_exceptions_syscalls.c:239-337 | every request keeps descriptors 0 and 1 the console and every position inside its file |
| Descriptors.StreamsAreIndependent | student-distrib/idt_exceptions_syscalls/idt_exceptions_syscalls.c:239-337 | over any interleaving of open, read and close, the bytes a descriptor delivered since it was opened are the beginning of the file of its name, as long as the sizes asked for add up to; reads of the directory deliver entry after entry |
| Descriptors.FileRead | student-distrib/filesystem/system_calls.c:41-47 | one read of a file makes its stream longer by the next bytes |
| Descriptors.DirectoryRead | student-distrib/filesystem/system_calls.c:83-108 | one read of the directory delivers the next entry |
| Descriptors.ReadToTheEnd | student-distrib/filesystem/system_calls.c:41-47 | a reader has the whole file if and only if it asked for as many bytes |
| Descriptors.Process.constructor | student-distrib/idt_exceptions_syscalls/pcb.c:97-119 | a new process has the console open and nothing else |
| Descriptors.Process.GetAvailFd | student-distrib/idt_exceptions_syscalls/pcb.c:148-158 | takes the lowest available descriptor |
| Descriptors.Process.MakeAvailableFd | student-distrib/idt_exceptions_syscalls/pcb.c:164-170 | makes one descriptor available, if there is such a one |
| Descriptors.Begins | student-distrib/idt_exceptions_syscalls/idt_exceptions_syscalls.c:282-300 | tells whether a name begins with a special one |
| Descriptors.LookUp | student-distrib/idt_exceptions_syscalls/idt_exceptions_syscalls.c:282-316 | finds out what a name opens: clock, directory, file or nothing |
| Descriptors.Process.OpenFile | student-distrib/idt_exceptions_syscalls/idt_exceptions_syscalls.c:275-318 | carries out the open request, with names that begin with rtc or a dot taken as special |
| Descriptors.Process.CloseFile | student-distrib/idt_exceptions_syscalls/idt_exceptions_syscalls.c:326-337 | carries out the close request; 0 and 1 cannot be closed |
| Descriptors.Process.ReadContents | student-distrib/filesystem/system_calls.c:41-47 | delivers the next bytes of a file and advances its position by them, for every 32-bit size: a negative one asks for the rest of the file |
| Descriptors.Process.ReadEntry | student-distrib/filesystem/system_calls.c:83-108 | delivers the next directory entry |
| Descriptors.Process.ReadFile | student-distrib/idt_exceptions_syscalls/idt_exceptions_syscalls.c:239-250 | carries out the read request of every kind of descriptor, the line editor of the terminal included |
| Grep.GrepIsExact | syscalls/ece391grep.c:20-55 | for every file and pattern: what grep takes for matching lines are the lines that contain the pattern, each once and in order, if and only if each of them has at most 1024 bytes; for a pattern that is empty or begins with a byte from 128 on, if and only if no line contains it |
| Grep.AccentsAreNotFound | syscalls/ece391grep.c:43 | a line that is an accented word is not found by that word |
| Grep.OutputIsNaive | syscalls/ece391grep.c:68-97 | when every entry has a name of its own and meets its condition, the output of the whole program is that of a search line by line through every file of the directory, whatever its name is |
| Grep.EntryIsExact | syscalls/ece391grep.c:79-92 | what is printed for an entry that is the first of its name is what a search of its own file line by line prints if and only if the condition on lines holds for it, or, if its name begins with rtc, no line of it contains the pattern |
| Grep.RtcFileIsMissed | student-distrib/idt_exceptions_syscalls/idt_exceptions_syscalls.c:282-290 | a file whose name begins with rtc and contains the pattern, of which nothing is printed |
| Grep.FileBehindNamelessIsMissed | syscalls/ece391grep.c:79 | a file with the pattern behind an entry without a name, of which nothing is printed |
| Grep.SecondOfANameIsMissed | syscalls/ece391grep.c:87 | two files of the same name, of which the second has the pattern and nothing is printed |
| Grep.TrapIsExact | syscalls/ece391grep.c:32 | the same when the byte behind the buffer happens to hold a newline: exactly if the first full buffer that does not end in a newline cuts no line to be found, and every line to be found behind it has at most 1024 bytes; and as before for the other patterns |
| Grep.TrapLosesALine | syscalls/ece391grep.c:32 | so that newline can make a short matching line be missed that would be found without it |
| Grep.KeptPass | syscalls/ece391grep.c:32-38 | a pass over a buffer that ends inside a line finds the full lines of the file and keeps the rest for the next read |
| Grep.WholePass | syscalls/ece391grep.c:39-55 | a pass that takes the whole buffer finds the same as the definition of pieces does |
| Grep.Round | syscalls/ece391grep.c:22-55 | one read and one pass account for exactly the part of the file that they reach |
| Grep.CutLines | syscalls/ece391grep.c:30-55 | full lines at the beginning of a buffer are full lines of the file |
| Grep.Strncmp | syscalls/ece391support.c:35-46 | answers 0 if and only if the strings agree up to a NUL or the given length, and else the difference of the first characters that differ |
| Grep.Strcpy | syscalls/ece391support.c:14-17 | moves a string inside the buffer to its front and nothing behind it |
| Grep.LineEnd | syscalls/ece391grep.c:29-31 | finds the end of the next line of the buffer |
| Grep.SearchLine | syscalls/ece391grep.c:40-49 | prints the line if and only if it contains the pattern, which must not be empty or begin with a byte from 128 on |
| Grep.SearchBuffer | syscalls/ece391grep.c:27-55 | searches the lines of a buffer in order, and leaves the unfinished one at its front or searches it too, exactly as the three conditions say |
| Grep.Refill | syscalls/ece391grep.c:21-26 | reads on to the end of the buffer or of the file |
| Grep.DoOneFile | syscalls/ece391grep.c:10-66 | prints the matching pieces of the file for any contents of the uninitialised buffer, gives its descriptor back, and says when the file cannot be opened |
| Grep.CloseRestores | syscalls/ece391grep.c:61 | closing gives back exactly the descriptor that opening took |
| Grep.ListedNameOpens | syscalls/ece391grep.c:79-92 | every name the directory lists can be opened again |
| Grep.Program | syscalls/ece391grep.c:68-97 | the output is that of every entry in turn up to the first without a name, directories left out, or the message that the directory cannot be opened |
| Blink.PoolAndListAgree | fish/blink.S:105-379 | from an empty pool on and for locations other than 0, any run of adding, removing, synchronising and ticking keeps the pointers an acyclic chain through exactly the slots with a non-zero location, and the list is the one of the operations on values |
| Blink.FreeSlotsAreClean | fish/blink.S:214-223 | in any such run the slots that are not in use hold nothing, as at the beginning |
| Blink.AddKeepsListIff | fish/blink.S:124-161 | an addition keeps the pool a list if and only if the location is not 0 or there is no room |
| Blink.ZeroMakesACircle | fish/fish.c:160-175 | after an addition at location 0 the next one takes the same slot, and its node points to itself |
| Blink.RemoveUndoesAdd | fish/blink.S:187-237 | find returns the latest addition with all that was given, and removing it at once restores the list |
| Blink.AddedAgrees | fish/blink.S:105-185 | adding puts a node in front and fails exactly for a place beyond the screen or a full pool |
| Blink.RemovedAgrees | fish/blink.S:187-237 | unlinking and zeroing take the latest addition at that location out of the list |
| Blink.SyncedAgrees | fish/blink.S:240-300 | synchronising changes lengths, countdown and status of one node |
| Blink.DoAgrees | fish/blink.S:101-379 | every operation on the pool is the operation on the list |
| Blink.PushThreads | fish/blink.S:158-161 | linking a free slot in front keeps the chain |
| Blink.UnlinkThreads | fish/blink.S:206-222 | redirecting the pointer that leads to a node and zeroing it keeps the chain |
| Blink.PoolIsFull | fish/fish.c:160-170 | the allocator fails exactly when the list has as many nodes as the pool has slots |
| Blink.BlinkTiming | fish/blink.S:65-86 | after n ticks a new blink is on exactly when n mod (a + b) < a, with a length of 0 or above 32768 lasting one tick |
| Blink.BlinkKeepsRhythm | fish/blink.S:49-99 | in any run that leaves its location alone a blink found there has the characters and lengths that were added, and is on exactly in the first part of each period |
| Blink.BlinkIsSeen | fish/blink.S:49-99 | and at a place of its own the screen shows the one character in the first part of each period and the other in the second, whatever happens elsewhere |
| Blink.SyncedStayInStep | fish/blink.S:267-275 | two synchronised blinks keep their characters and have equal lengths, countdown and status for as long as both are left alone |
| Blink.SyncShowsRightlyIff | fish/blink.S:277-285 | what synchronising shows at once is right if and only if the blink is off or its characters are equal |
| Blink.ScreenStaysFaithfulIff | fish/blink.S:49-300 | all along a run the screen shows what the blinks are if and only if every addition has a place of its own and every synchronisation is with a blink that is off or of one with two equal characters |
| Blink.StepStaysFaithfulIff | fish/blink.S:101-300 | the same for one operation |
| Blink.FindAfter | fish/blink.S:351-379 | an operation elsewhere leaves the latest addition at a location, and a tick counts it down |
| Blink.TickAdvances | fish/blink.S:65-86 | one tick moves a blink one step around its period |
| Blink.Node.CopyFrom | fish/fish.c:186-196 | copies a structure |
| Blink.Node.Tick | fish/blink.S:65-86 | counts down in 16 bits and toggles when the signed result is not positive |
| Blink.Node.Follow | fish/blink.S:267-275 | copies lengths, countdown and status |
| Blink.Driver.constructor | fish/fish.c:28 | the cleared pool and the empty list |
| Blink.Driver.Malloc | fish/fish.c:160-170 | the first slot whose location is 0 |
| Blink.Driver.Add | fish/blink.S:105-185 | carries out the addition, whatever the list is |
| Blink.Driver.FindHelper | fish/blink.S:351-379 | follows the pointers to the latest addition at a location |
| Blink.Driver.FindPrev | fish/blink.S:206-212 | finds the pointer that leads to a node |
| Blink.Driver.Unlink | fish/blink.S:214-222 | redirects it and zeroes the slot |
| Blink.Driver.Remove | fish/blink.S:187-237 | carries out the removal |
| Blink.Driver.FindEntry | fish/blink.S:302-349 | answers the latest addition at a location |
| Blink.Driver.Sync | fish/blink.S:240-300 | carries out the synchronisation and its display |
| Blink.Driver.Tasklet | fish/blink.S:49-99 | counts down and draws every node of the list once |
| Rtc.InterruptsAreServed | student-distrib/devices/rtc.c:92-127 | from the moment a terminal sets its rate and whatever the others do, each virtual interrupt is at the first hardware tick at least count_num ticks after the one before at which the terminal is current |
| Rtc.ServedIsUnique | student-distrib/devices/rtc.c:100-114 | this rule leaves no choice |
| Rtc.DelayIsBounded | student-distrib/devices/rtc.c:111-114 | a terminal that is current at least every g ticks is served less than g ticks late, each time anew |
| Rtc.TickCounts | student-distrib/devices/rtc.c:100-114 | one tick: the counter holds what is left to wait, and stays at 0 while the terminal is not current |
| Rtc.EventCounts | student-distrib/devices/rtc.c:92-127 | no other event of a run touches the counter of the terminal |
| Rtc.WriteStarts | student-distrib/devices/rtc.c:268-289 | a rate of 1 to 512 starts with a wait of at least one tick |
| Rtc.BaseStays | student-distrib/devices/rtc.c:144-162 | from the first open on no event changes the rate of the hardware on which all waits are reckoned |
| Rtc.OpenStarts | student-distrib/devices/rtc.c:149-157 | an open starts with 256 ticks |
| Rtc.FlagIsSetIff | student-distrib/devices/rtc.c:210-216 | in any run of ticks, opens, writes and reads, the flag of a terminal is set if and only if its last interrupt came after its last clearing and after the last open by any terminal |
| Rtc.WhileDisabled | student-distrib/devices/rtc.c:113-120 | as long as the virtual clock is disabled the flag of a terminal is set if and only if it was current at a tick that it has not cleared since |
| Rtc.InterruptIsLostIff | student-distrib/devices/rtc.c:22-25 | a waiting reader misses its interrupt if and only if some terminal opened the clock between that interrupt and the look of the reader |
| Rtc.OpenLosesInterrupt | student-distrib/devices/rtc.c:22-25 | a run from boot in which terminal 0 is served by the first tick and an open by terminal 1 takes the interrupt away |
| Rtc.Clock.constructor | student-distrib/devices/rtc.c:11-20 | the state before the first open |
| Rtc.Clock.Interrupt | student-distrib/devices/rtc.c:92-127 | carries out one hardware tick |
| Rtc.Clock.Open | student-distrib/devices/rtc.c:141-176 | carries out an open |
| Rtc.Clock.Write | student-distrib/devices/rtc.c:234-302 | accepts any rate from 1 to 512, refuses more and other sizes than 4 bytes, and faults for rate 0 |
| Rtc.FaultKeepsCounting | student-distrib/devices/rtc.c:282-287 | a write of rate 0 leaves every terminal counting at its old rate |
| Rtc.LargeRateIsRefused | student-distrib/devices/rtc.c:268-276 | a rate above 512 is refused and changes nothing |
| Rtc.Clock.SetRate | student-distrib/devices/rtc.c:285-287 | sets frequency, wait and counter of one terminal |
| Rtc.Clock.ClearInterrupt | student-distrib/devices/rtc.c:210-215 | clears one flag |
| Numbers.NumeralParses | student-distrib/lib.c:336-364 | parsing the digits gives the value back, for every radix from 2 to 36 |
| Numbers.ParsedPrintsAgain | student-distrib/lib.c:336-364 | and the digits are the only ones without a leading zero that do |
| Numbers.NoLeadingZero | student-distrib/lib.c:342-347 | only 0 begins with a zero |
| Numbers.NumeralLength | student-distrib/lib.c:353-358 | the number of digits is the least whose power of the radix exceeds the value |
| Numbers.UintLengths | student-distrib/lib.c:172-194 | a 32-bit number has at most 32 digits, 8 in base 16 and 10 in base 10 |
| Numbers.ReversedDigits | student-distrib/lib.c:353-363 | the digits as they are produced, reversed, are the numeral |
| Numbers.PlacesAre | student-distrib/lib.c:353-358 | the places that the model works with are remainder and quotient |
| Numbers.Strrev | student-distrib/lib.c:370-385 | reverses a string in place |
| Numbers.Produce | student-distrib/lib.c:353-358 | writes the digits, the lowest place first |
| Numbers.Itoa | student-distrib/lib.c:336-364 | writes the numeral and a NUL, and nothing else |
| Numbers.Puts | student-distrib/lib.c:250-257 | prints up to the NUL |
| Numbers.PrintHex | student-distrib/lib.c:170-175 | prints the hexadecimal numeral |
| Numbers.PrintPadded | student-distrib/lib.c:176-186 | prints exactly 8 hexadecimal digits with the same value |
| Numbers.PrintUnsigned | student-distrib/lib.c:192-199 | prints the decimal numeral |
| Numbers.PrintSigned | student-distrib/lib.c:202-214 | prints the signed decimal numeral, the most negative number included |
| Numbers.SignedParses | student-distrib/lib.c:202-214 | which parses to the value |
| Numbers.LeadingZeros | student-distrib/lib.c:180-185 | zeros in front leave the value |
| Memory.MemcpyIsRightIff | student-distrib/lib.c:487-523 | memcpy is right for all contents of memory if and only if the destination does not begin inside the source or is just one aligned word |
| Memory.CopyIsRight | student-distrib/lib.c:487-523 | with no destination inside the source it is right for any alignment and length |
| Memory.OverlapGoesWrong | student-distrib/lib.c:489-517 | otherwise there are contents on which it goes wrong |
| Memory.OneWordIsRight | student-distrib/lib.c:500-507 | a single aligned word is read before it is written |
| Memory.Memcpy | student-distrib/lib.c:487-523 | head, words and tail are the copy in this order |
| Memory.CopyWords | student-distrib/lib.c:500-507 | the copy by words |
| Memory.CopyBytes | student-distrib/lib.c:508-516 | the copy by bytes |
| Memory.Memset | student-distrib/lib.c:404-438 | exactly n bytes are set, for any alignment and length |
| Memory.SetWords | student-distrib/lib.c:416-423 | the words between head and tail |
| Memory.SetBytes | student-distrib/lib.c:424-430 | the bytes behind the words |
| Memory.Memmove | student-distrib/lib.c:533-551 | the destination is the old source for every overlap in either direction, and nothing else changes |

## Left out

- Colour: only the character byte of a video cell is modelled; `ATTRIB` is not restored after keyboard.c:139.
- Control transfer on stacks (`save_regs`, `do_schedule`, `setup_exec_stack`, `halt_process`, interrupt stubs): a switch is a change of the running process, and the kernel stack pointer in the task state segment stands for the stack.
- Port input and output, interrupt controllers, descriptor tables, multiboot, the hardware cursor and the flushing of translations: translations are taken as fresh after every change of an entry.
- Races inside `putc`, `terminal_read` and `rtc_read`: each is one step, and a waiting reader is a step that happens when its condition holds.
- Loading of programs: whether a command names an executable is a parameter of `execute`, and that the file system holds an executable `shell` is a constant of the state, true in the theorems about runs; `check_executable` and `open_executable` are not part of this model.
- `parse_arguments` and `getargs`: the argument of grep is a parameter of `Grep.Program`.
- Null buffers: the calls answer at once and change nothing.
- FileSystem.DirRead: does not model a negative size for a name of 32 characters, which asks `strncpy` for more than two gigabytes.
- Descriptors.Process.ReadEntry: does not model that size either, for the same reason.
- Descriptors.Process.ReadFile: does not model that size, nor the waiting of the clock and of the keyboard; the line of the keyboard is there when the read is done.
- KernelCode.Kernel.SetupPcb: does not model the descriptors that `setup_pcb` fills in, which are modelled in `Descriptors.Process`.
- `terminal_write` as a whole: it is its loop body, once for each byte, so that ticks and keys can come between two bytes; a size of 0 or less is no byte at all.
- A process that is created in slot 0 other than as the first shell: slot 0 is never free while another process runs.
- KernelCode.Kernel.Execute: does not model file descriptors and arguments, which the isolation of terminals does not depend on; descriptors are modelled for one process in `Descriptors`.
- KernelCode.Kernel.UserStore: does not model stores outside the text page.
- FileSystem.Strncpy: does not model that the source is read one byte beyond the copied ones, because the byte does not change the result.
- FileSystem.ReadData: does not model inode numbers and block numbers beyond the image, because the code does not check them.
- The bytes of the boot block and of the inode blocks: directory entries and inodes are modelled as what they hold; that the module begins at a block boundary is taken as given.
- Writes through descriptors: files and the directory refuse them, the console is `WriteByte`, the clock is `Rtc.Clock.Write`.
- Grep.DoOneFile: does not model files or patterns that contain NUL characters, on which the string routines of grep stop early.
- Grep.Program: does not model them either.
- The virtual clock after a write of rate 0: the write ends in a divide error (`Rtc.Clock.Write`), and the handler of that error is not part of this model; runs of the clock contain no such write.
- `rtc_interrupt_rate` and the branches with the virtual clock disabled after the first open: they are never reached.
- Blink.Driver.Tasklet: does not model video memory beyond the 2000 cells, because no accepted location lies there.
- Numbers: the walk of `printf` over its arguments is not modelled, only its conversions.
- Memory: that `memmove` leaves the direction flag set is not modelled, and `memset_word` and `memset_dword` would only add easier members.
- The emulation layer for another host, the other user programs, `createfs`, `elfconvert` and the tests.
