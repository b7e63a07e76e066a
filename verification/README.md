# A verified model of the three-terminal kernel

The repository is a small x86 kernel with three text terminals, a round-robin scheduler, a block
file system, a handful of user programs, and a screen-blinking module in assembly. This project
models its stateful cores in Dafny and proves what they are for. Verify it with
`dafny verify dfyconfig.toml`.

**Terminals** (`Screens`, `Terminals`, `TerminalMachine`, `CommandBuffers`, `Input`, `Rolls`). Three logical screens share
one VGA page and three backup pages. Program output goes through page-table entry 184, keyboard echo
through the fixed entry 188; a tick changes which terminal runs, Alt-Fn which one is visible, and both
remap entry 184. `TerminalMachine.Machine` is that machine: the four physical pages, the page table, the
keyboard buffers, the shared command buffer. `Terminals` states what it is for: each terminal is a console
of its own (`Standalone`). `Machine.Serve` runs any sequence of ticks, switches, writes, keystrokes, reads
and clears, and ends in the state the three independent consoles are in. `Screens` shows that a console is
a scrolling window over its whole output, and `Rolls` that with keystrokes and erasures too it is a window on
the roll everything printed and echoed is written on. Ctrl-L is the exception: it is local exactly when the running
terminal is the visible one, or both pages are blank already.
`Input` is about what readers get. Typed lines are a fold over keystrokes. The one command buffer is a queue
of the lines of all terminals, as long as the short move-down of a read spares what is behind it; so input is
not isolated, and it is shown exactly when a read returns a line of the terminal that reads, for one read and
for whole runs.

**Processes** (`Processes`, `Nesting`, `Rotation`, `Kernel`, `Programs`). `Processes` is the process life cycle on
values: a stack of processes per terminal and eight shared pids. `Nesting` shows that every halt returns to
its execute, `Rotation` that every tick resumes the right context out of the three shifted slots, both from
the boot on. `Kernel.Machine` is the code itself, with PCB objects, `parent_pcb` pointers, `pid_array`, the user
page and `tss.esp0`; each of its methods refines a step of `Processes`, and its invariant says that the PCB
chains are the stacks and that the user page and the stack pointer serve the running process.
`Programs.Computer` puts it together with the file system: when execute fails, and what a new process finds.

**Files** (`FileSystem`, `SequentialReads`, `Directory`, `Descriptors`, `Cat`, `Ls`, `Commands`). `read_data` against a flat
file, with the exact condition under which they agree; chunked reading, with the exact set of safe chunk
sizes; names and directory enumeration; whole runs of open, read and close; `cat` and `ls` as clients; the command
line that `execute` parses and `getargs` delivers.

**grep, blink, numbers** (`Grep`, `GrepReads`, `CStrings`; `Blink`, `BlinkDevice`; `Numbers`). The 1 KB sliding
buffer of grep, filled by the kernel's reads, prints what a search of the file split into lines prints,
provided the file's blocks follow each other in memory; otherwise there are files of which it prints a line
that is not there. The blink list is threaded through a fixed pool of cells; over any run of calls a node
ticks once per tasklet and its phase has a closed form. `itoa` with its in-place reversal prints the unique
numeral.

`Bytes`, `Buffers`, `Lines`, `Counting` and `Division` hold shared vocabulary and arithmetic.

Where the code and its comments differ, the model follows the code: `read_dentry_by_index` lets the index
equal the entry count, `read_data` misplaces the tail of a short read that crosses into a scattered block,
halting any root shell frees pid 0, the slots the scheduler says belong to the last terminal are indexed by
the new one, and the redisplay after a blink sync, whose conditional move tests the wrong flags, always draws
the off character.

## Model

| member | source | states |
|---|---|---|
| Screens.PutAllConcat | student-distrib/lib.c:181-213 | Printing one text after another is printing their concatenation, so how output is cut into writes cannot show |
| Screens.RowsAreSnoc | student-distrib/lib.c:181-213 | Cutting the whole stream into lines and 80-column rows can be done one character at a time: a full row opens a new one only when the next character comes, so an 80-character line is one row |
| Screens.LineFeedShows | student-distrib/lib.c:324-344 | A line feed, with its scroll in the last row, shows the same rows with an empty one added |
| Screens.PutShows | student-distrib/lib.c:181-213 | One more character keeps the screen equal to the last 25 rows of the stream with that character added |
| Screens.ScrollingWindow | student-distrib/lib.c:181-213 | After any backspace-free stream on a cleared screen, the 25 rows are exactly the last 25 rows of the whole stream, blank-padded, and the cursor is at its end |
| Terminals.Type | student-distrib/terminal_driver.c:142-176 | Cursor safety for any keystroke: row within 25, at most 80 and at least position minus 127 for x, and the edited line always lies behind the cursor, so every cell written is on the page |
| Terminals.PrintIsPutAll | student-distrib/terminal_driver.c:108-134 | A write prints the characters one by one and leaves the edited line and the ready flag alone |
| Terminals.WrapKeepsGlyph | student-distrib/lib.c:216-248 | The deferred wrap, with or without a scroll, keeps the character that stands j cells behind the cursor |
| Terminals.TypeKeepsEcho | student-distrib/terminal_driver.c:142-176 | A keystroke keeps the edited line visible in the cells behind the cursor |
| Terminals.EchoAlwaysShown | student-distrib/terminal_driver.c:142-176 | For any history of keystrokes without program output, the cells behind the cursor show exactly the line being edited, also across wrapped rows, scrolls and erasures |
| Terminals.StepIsOwn | student-distrib/lib.c:181-248 | Each step of the shared machine is, for each terminal, that terminal's own step or none |
| Terminals.Isolation | student-distrib/paging.c:270-341 | For every interleaving of ticks, switches, writes, reads and keystrokes, each terminal's screen, cursor and line are those of a console of its own fed only its own events |
| Terminals.ClearIsLocal | student-distrib/lib.c:24-36 | Ctrl-L clears just the visible terminal if and only if it is also the running one or both pages are already blank |
| Terminals.StandalonePrints | student-distrib/terminal_driver.c:108-134 | A terminal that only receives writes prints their concatenation |
| Terminals.WindowUnderInterleaving | student-distrib/lib.c:181-213 | On the shared machine too, a cleared terminal that is only written to shows the last 25 rows of its own output |
| Terminals.TicksTurn | student-distrib/scheduler.c:60-62 | In every run the running terminal is the number of ticks further on, modulo three |
| Rolls.PutDisplays | student-distrib/lib.c:181-248 | One character, newline or backspace does to the 25 rows on the screen and to the cursor what it does to a roll of paper: a newline begins a new last row, a backspace takes the character before the pen away, over wrapped rows too |
| Rolls.TextFillsRows | student-distrib/lib.c:181-213 | A text without backspaces fills the roll with exactly the rows of the text |
| Rolls.KeyShows | student-distrib/terminal_driver.c:142-176 | A key on a screen that shows some rows: Enter adds an empty row, an accepted character comes next, and a key that a full or an empty line ignores leaves the screen as it is |
| Rolls.BackspaceBlanks | student-distrib/lib.c:216-248 | Erasing blanks exactly the cell before the cursor and moves the cursor there, also over a wrap |
| Rolls.KeyDisplays | student-distrib/terminal_driver.c:142-176 | A key sends to the screen just the accepted character, the newline of Enter or the backspace on a line that is not empty, and the line is edited accordingly |
| Rolls.ScreenIsPaper | student-distrib/terminal_driver.c:108-176 | For any history of output, keystrokes, reads and clears the screen is the last 25 rows of the roll that everything printed and echoed is written on |
| Rolls.PaperUnderInterleaving | student-distrib/paging.c:270-341 | The same on the shared machine, for every terminal and every interleaving with the others |
| Input.LineIsEdited | student-distrib/terminal_driver.c:142-176 | On the shared machine, after any run, the keyboard line of each terminal is the fold of its own keystrokes: append under 127, pop on backspace, empty on newline and on Ctrl-L, whatever is printed, read, cleared and switched in between |
| Input.EnteredLineIsRead | student-distrib/terminal_driver.c:62-99 | A line typed by any history and entered when nothing was pending is what the terminal reads once it gets to run again, however many ticks, switches, writes, keystrokes and clears come in between: exactly the fold of its keystrokes and a newline, after which command_position is 0 |
| Input.RestIsLeft | student-distrib/terminal_driver.c:86-93 | After a read the queue of lines entered on all terminals is the old one without what was taken, if and only if the rest survives the short move-down: no more bytes are left than were taken, or they repeat |
| Input.LinesAreAQueue | student-distrib/terminal_driver.c:62-206 | In every run whose reads spare what is behind them, the reads of all terminals take the lines of all terminals in the order they were entered, never finding the queue empty |
| Input.OwnReadIsOwnFront | student-distrib/terminal_driver.c:62-99 | A read with room returns a line of the reading terminal if and only if the line at the front of the queue was entered there, or reads the same as its own |
| Input.InputIsIsolated | student-distrib/terminal_driver.c:62-206 | Over whole runs: every read on every terminal returns a line entered on that terminal if and only if at every read the front of the queue was entered there, or reads the same |
| Input.PromptReadsAreOwn | student-distrib/terminal_driver.c:62-206 | If every Enter finds the command buffer empty and every read has room, every read on every terminal returns the line last entered on that terminal |
| Input.PromptFromStart | student-distrib/terminal_driver.c:62-206 | From the start, when nothing is typed or pending, the same holds of every such run |
| Input.LinesCrossTerminals | student-distrib/terminal_driver.c:200-206 | The command buffer is shared: after Enter on the visible terminal and then on the running one, the running terminal reads the line entered on the other, not its own, whatever the two different lines are |
| CommandBuffers.CommandBuffer.Copy | student-distrib/terminal_driver.c:200-206 | The edited line is appended behind the unread bytes |
| CommandBuffers.CommandBuffer.Read | student-distrib/terminal_driver.c:62-99 | Returns the bytes up to and including the first newline or nbytes of them, and moves as many bytes down as were taken; -1 for a negative count or no buffer |
| CommandBuffers.ReadLengthStops | student-distrib/terminal_driver.c:73-83 | A read stops at the first newline and nowhere else before nbytes |
| CommandBuffers.ReadReturnsLine | student-distrib/terminal_driver.c:62-99 | An appended line that fits the reader comes back whole, whatever stale bytes are behind it |
| CommandBuffers.UnreadSurvives | student-distrib/terminal_driver.c:86-93 | The unread bytes survive a read if and only if no more remain than were taken, or the copied-down stretch happens to equal what it hides |
| CommandBuffers.LongerPendingLineIsLost | student-distrib/terminal_driver.c:86-93 | A concrete case where a longer pending line is corrupted by reading a shorter one |
| TerminalMachine.Machine.constructor | student-distrib/paging.c:14-33 | After start-up the three terminals are untouched and the page table maps the running one |
| TerminalMachine.Machine.ScrollThrough | student-distrib/lib.c:324-344 | The in-place loop scrolls the mapped page and no other page |
| TerminalMachine.Machine.PutThrough | student-distrib/lib.c:216-248 | A character through either mapping changes just the mapped page and the cursor, as the console does |
| TerminalMachine.Machine.Putc | student-distrib/lib.c:181-213 | Output goes to the running terminal's logical page, visible or not |
| TerminalMachine.Machine.PutcKeyboard | student-distrib/lib.c:216-248 | Echo goes to the visible page, whoever runs |
| TerminalMachine.Machine.TermPageSwitch | student-distrib/paging.c:312-341 | Entry 184 and the user mapping become the VGA page if the running terminal is visible, and its backup page if not |
| TerminalMachine.Machine.SwitchPages | student-distrib/paging.c:270-302 | The two page copies and the remapping leave every logical screen as it was |
| TerminalMachine.Machine.TermVisibleSwitch | student-distrib/paging.c:270-302 | Changes which terminal is visible and nothing about any terminal's logical screen, although pages are copied |
| TerminalMachine.Machine.Tick | student-distrib/scheduler.c:60-86 | Moves to the next terminal without disturbing any screen |
| TerminalMachine.Machine.Clear | student-distrib/lib.c:24-36 | Blanks the running terminal's page, and resets the visible terminal's cursor |
| TerminalMachine.Machine.ClearBuffer | student-distrib/terminal_driver.c:184-193 | Empties the line, all zero |
| TerminalMachine.Machine.CtrlL | student-distrib/lib.c:24-36 | Refines the clear step |
| TerminalMachine.Machine.TerminalWrite | student-distrib/terminal_driver.c:108-134 | Prints the bytes on the running terminal and returns their count; -1 and no effect for a negative count or no buffer |
| TerminalMachine.Machine.AddToBuffer | student-distrib/terminal_driver.c:142-176 | A keystroke changes the visible terminal's line, screen and ready flag and the command buffer, and no other terminal; the tail of the keyboard buffer stays zero |
| TerminalMachine.Machine.TerminalRead | student-distrib/terminal_driver.c:62-99 | Delivers the pending line, takes it out, and clears the running terminal's ready flag |
| TerminalMachine.Machine.Handle | student-distrib/scheduler.c:61-124 | Every event refines its step on three terminals |
| TerminalMachine.Machine.Serve | student-distrib/paging.c:270-341 | For any sequence of events the machine refines the run, and its three terminals are three independent consoles |
| Processes.StepKeepsInv | student-distrib/systemcall.c:446-505 | Every tick, execute and halt keeps: live pids distinct, marked pids exactly the live ones, one root per terminal at the bottom, boot in order |
| Processes.Run | student-distrib/systemcall.c:157-218 | The invariant holds after every run |
| Processes.SpawnKeepsInv | student-distrib/systemcall.c:157-218 | Execute takes an unmarked pid and keeps the accounting |
| Processes.HaltKeepsInv | student-distrib/systemcall.c:446-505 | Halt keeps the accounting when the process is a child or the pid-0 root |
| Processes.ExitKeepsAccounting | student-distrib/systemcall.c:457-473 | Halt keeps the accounting if and only if the process has a parent or is the root with pid 0 |
| Processes.RootRestarts | student-distrib/systemcall.c:469-480 | The pid-0 root that exits is back, in the same state |
| Processes.Capacity | student-distrib/systemcall.c:157-167 | At most eight processes live, and execute fails for want of a pid exactly when eight do |
| Processes.MemoryApart | student-distrib/paging.c:151-159 | The PCB and kernel-stack regions and the 4 MB frames of any two live processes are disjoint, each stack pointer lies in its own region, and regions and frames never meet |
| Processes.MemoryLayout | student-distrib/systemcall.c:169-230 | The 8 KB regions lie side by side downwards from 8 MB in the order of the pids, the user frames upwards from there, each on its 4 MB boundary |
| Processes.StackFits | student-distrib/systemcall.c:227-233 | tss.esp0 is the last word of the process's region, and every word pushed below it, down to the end of the PCB, lies in that region, above the PCB, and in no region of another live process |
| Nesting.PrefixKept | student-distrib/systemcall.c:446-505 | Whatever happens on all terminals, processes below the lowest level a stack reaches are unchanged |
| Nesting.ExecuteHaltBracket | student-distrib/systemcall.c:446-505 | However much runs in between, the halt of a child returns to the caller's saved esp and ebp, and the terminal's processes are those before the execute |
| Nesting.LastRise | student-distrib/systemcall.c:157-218 | If a terminal has a process at some depth at the end of a run, either it had one that deep all along or there is an execute on that terminal that brought it there for good |
| Nesting.EveryHaltReturns | student-distrib/systemcall.c:446-505 | From the boot on, in every run each halt of a process that is no root ends an execute on the same terminal: it resumes the context that execute was called in, and the processes left are those it was called from |
| Rotation.RunRotates | student-distrib/scheduler.c:78-124 | Only ticks touch the saved contexts: a whole run, boot included, rotates them by the contexts its ticks saved |
| Rotation.RoundRobin | student-distrib/scheduler.c:78-124 | After n ticks the slots hold the last preempted contexts of the two waiting terminals |
| Rotation.TicksMoveOn | student-distrib/scheduler.c:60-62 | Between two turns of a terminal each of the others runs exactly once, whatever is executed or halted |
| Rotation.TickResumes | student-distrib/scheduler.c:78-134 | From any state, boot included, once all shells are up and two ticks have passed, a tick resumes exactly the context that terminal had when it was preempted two ticks before |
| Rotation.EveryTickResumes | student-distrib/scheduler.c:61-134 | From the boot on: once all shells are up every tick resumes the context of two ticks before, the first ones too, whose contexts were saved while the shells came up |
| Kernel.Machine.constructor | student-distrib/systemcall.c:157-167 | Zeroed PCBs make the initial state |
| Kernel.Machine.ChainIsStack | student-distrib/systemcall.c:180-190 | The parent_pcb chain of a terminal is acyclic and ends at its root: n steps up are n processes down the stack, and past the root there is nothing |
| Kernel.Machine.ChainsApart | student-distrib/systemcall.c:180-190 | No PCB appears twice in the chains of the three terminals |
| Kernel.Machine.AllocatePid | student-distrib/systemcall.c:157-167 | The least free pid is marked, and nothing changes when there is none |
| Kernel.Machine.Launch | student-distrib/systemcall.c:157-233 | Pushes the process with the caller's context; the user page maps its 4 MB frame and tss.esp0 is its own |
| Kernel.Machine.Execute | student-distrib/systemcall.c:157-233 | Refines execute from the search for a pid on, and keeps the running process the one the user page and tss.esp0 serve |
| Kernel.Machine.Tick | student-distrib/scheduler.c:61-124 | Refines the tick, boot included, and leaves the user page and tss.esp0 serving the new running terminal's process |
| Kernel.Machine.Halt | student-distrib/systemcall.c:446-505 | Refines halt: the parent resumes with the child's saved context and status, served by the user page and tss.esp0; the root is started again |
| Programs.ExecutableFile | student-distrib/systemcall.c:144-151 | The header check passes if and only if the file begins with the four magic bytes; of a shorter file the bytes left in the buffer count behind its end |
| Programs.Loader.FindProgram | student-distrib/systemcall.c:77-151 | Succeeds if and only if the command has a name, the directory has an entry of that name, and the contents of its inode pass the header check; then it gives that inode and the parsed arguments |
| Programs.Computer.Execute | student-distrib/systemcall.c:77-251 | Succeeds if and only if fewer than eight processes are live, the command has a name, the directory has an entry of that name, and its contents pass the header check; otherwise no process changes. The new process is on top with the parsed arguments, that file's image exact at its place in a page of its own, and its entry point |
| Programs.Computer.Halt | student-distrib/systemcall.c:446-505 | Halt hands over to the parent, or the root that starts over, and leaves it without arguments |
| Programs.Computer.GetArgs | student-distrib/systemcall.c:536-549 | The running process gets the arguments in its own PCB |
| FileSystem.ReadData | student-distrib/filesystem.c:183-235 | Returns min(length, rest of the file) bytes, and says exactly which bytes arrive; -1 for a bad inode or no buffer, 0 past the end; and what happens when the 32-bit sum of offset and length wraps |
| FileSystem.CopyWrapped | student-distrib/filesystem.c:199-232 | When offset plus length exceeds 32 bits the copying ends at once, or after the rest of the first block |
| FileSystem.DeliversFlat | student-distrib/filesystem.c:216-221 | A read agrees with the flat file if and only if it does not straddle a block as a short read, or the bytes behind the first block equal those of the next block |
| FileSystem.StraddleParts | student-distrib/filesystem.c:216-221 | A straddling short read delivers its front correctly and the rest from behind the first block |
| FileSystem.ExactWhateverContents | student-distrib/filesystem.c:183-235 | A read is right for all contents of the disk if and only if it does not straddle or the two blocks are consecutive |
| FileSystem.ScatteredReadFails | student-distrib/filesystem.c:216-221 | A disk on which a straddling read of scattered blocks is wrong |
| FileSystem.ExecuteReadsExactly | student-distrib/systemcall.c:145-226 | The three reads of execute are exact: the magic number, the entry point, and the load up to its cap |
| SequentialReads.ChunksReassemble | student-distrib/filesystem.c:364-381 | Reading in chunks that divide 4096 or are a multiple of it yields the exact file for any block layout, then 0 |
| SequentialReads.GapCorrupts | student-distrib/filesystem.c:364-381 | A file whose last block is one byte long and no neighbour of the one before comes out wrong if the last read begins inside that one |
| SequentialReads.BadLargeChunk | student-distrib/filesystem.c:364-381 | For any chunk above 4096 that is no multiple of it, and for which a file is long enough, a file that comes out wrong |
| SequentialReads.GoodLargeChunk | student-distrib/filesystem.c:364-381 | Where none is long enough, at most three reads yield the exact file |
| SequentialReads.SafeChunks | student-distrib/filesystem.c:364-381 | Chunked reading is right for every file and layout if and only if the chunk divides 4096, is a multiple of it, or is so large that no file is long enough to go wrong |
| Directory.FieldText | student-distrib/filesystem.c:56-68 | Reading a name past an unterminated field finds the 32 bytes of the name and never fewer |
| Directory.ComparesNames | student-distrib/filesystem.c:68-80 | The length test and the bounded comparison succeed exactly for equal names, also for unterminated ones |
| Directory.SameName | student-distrib/filesystem.c:68-80 | The two tests as the loop makes them decide equality of names |
| Directory.LookupAgrees | student-distrib/filesystem.c:47-94 | With distinct names, looking up an enumerated name finds that very entry, and any other name finds nothing |
| Directory.FindsFirst | student-distrib/filesystem.c:47-94 | A lookup gives type and inode of the first entry with the name, and fails exactly if there is none; the empty name and names over 32 bytes fail, names of 32 bytes do not |
| Directory.FindsEveryEntry | student-distrib/filesystem.c:47-94 | In a directory with distinct names every entry is found by its name, with its own type and inode, and no other name is |
| Directory.DirectoryReader.ReadDentryByName | student-distrib/filesystem.c:47-94 | The search loop is that lookup |
| Directory.DirectoryReader.ReadDentryByIndex | student-distrib/filesystem.c:128-142 | Fails only beyond the count; the entry at the count itself is let through |
| Directory.DirectoryReader.DirectoryFileRead | student-distrib/filesystem.c:488-512 | Delivers the name at the offset cut to the length and moves on; 0 at the end, -1 past it, and the rest of the buffer is untouched |
| Directory.DirectoryReader.List | syscalls/ece391ls.c:8-29 | Reading until 0 yields every name once, in order |
| Descriptors.RunKeepsGood | student-distrib/systemcall.c:264-406 | Any run of open, read and close keeps 0 and 1 active, and each file descriptor's offset is the count of bytes its reads returned since it was opened; reads that never straddled returned the front of the file |
| Descriptors.FreshIsGood | student-distrib/systemcall.c:192-194 | A fresh table has exactly descriptors 0 and 1 open |
| Descriptors.OpenTakesLeastFree | student-distrib/systemcall.c:328-377 | Open returns the least free index from 2 to 7 and changes only it, fails exactly for an unknown file or type or a full table, and close gives the index back. The new entry has the driver of the clock, the directory or a file exactly for types 0, 1 and 2, and for a file its inode |
| Descriptors.Process.OpenFile | student-distrib/systemcall.c:328-377 | The loop over the table refines open |
| Descriptors.OpenInstalls | student-distrib/systemcall.c:340-371 | Opening a name installs the driver and the inode of the first entry with that name |
| Descriptors.Process.OpenEntry | student-distrib/systemcall.c:328-377 | The call as its clients see it: it succeeds exactly for an entry of a known type and a free place, and the descriptor reads that entry from the front |
| Descriptors.Process.CloseFile | student-distrib/systemcall.c:387-406 | Succeeds exactly for open descriptors from 2 to 7, and changes only that entry's flag |
| Descriptors.Process.CloseAll | student-distrib/systemcall.c:450-455 | The loop of halt closes the descriptors from 2 up to the first one that is not open |
| Descriptors.HaltClosesAll | student-distrib/systemcall.c:450-455 | Halt closes everything if and only if there is no gap; exactly what is open behind the first gap stays open, and nothing else about a descriptor changes |
| Descriptors.Process.RegularFileRead | student-distrib/filesystem.c:364-381 | Delivers the next bytes of the descriptor's file and advances its offset by their count |
| Descriptors.Process.ReadFd | student-distrib/systemcall.c:264-283 | Read rejects bad descriptors, stdout, closed entries, no buffer and negative counts, and otherwise acts by the file's type |
| Cat.PrintFile | syscalls/ece391cat.c:6-31 | Succeeds if and only if there are arguments, an entry of that name and a free descriptor, and then copies out exactly the contents of that entry's inode, however its blocks are scattered |
| Ls.PrintNames | syscalls/ece391ls.c:8-29 | Opens the directory and prints every name in it through the descriptor, one a line, once and in order; fails exactly if it has no entry for itself or no descriptor is free |
| Commands.LineParses | student-distrib/systemcall.c:98-136 | A name, spaces and arguments, with spaces in front and a NUL, tab, newline or carriage return behind, parse to exactly that name and those arguments, cut at the 128th byte of the command |
| Commands.ParsedIsLine | student-distrib/systemcall.c:98-136 | Only such lines parse, and they are read in one way |
| Commands.ParseCommand | student-distrib/systemcall.c:87-136 | The copying loops find the name and the arguments, and fail exactly for a missing command, a missing name or one over 32 bytes |
| Commands.Arguments.Store | student-distrib/systemcall.c:172-177 | The process keeps the arguments |
| Commands.Arguments.Clear | student-distrib/systemcall.c:464-467 | The parent of a halted child has no arguments left |
| Commands.Arguments.GetArgs | student-distrib/systemcall.c:536-549 | Delivers the whole argument string if it fits and its front if not; fails exactly for no buffer, no room or no arguments |
| CStrings.Strlen | student-distrib/lib.c:311-316 | The length of the string |
| CStrings.Strcpy | syscalls/ece391support.c:14-17 | A forward copy onto an overlapping earlier place copies the original string and its end, and nothing else |
| CStrings.Strncmp | student-distrib/lib.c:535-549 | Zero if and only if the strings agree on their first n characters |
| CStrings.UserStrncmp | syscalls/ece391support.c:35-46 | The user library's loop decides the same |
| CStrings.Strncpy | student-distrib/lib.c:572-583 | The string cut to n, then zeros up to n |
| Lines.SplitJoin | syscalls/ece391grep.c:20-60 | The reference split into lines is right: joined again it is the text, and no line holds a newline |
| Grep.ContainsIs | syscalls/ece391grep.c:42-44 | A line contains the pattern exactly when it is something, the pattern and something |
| Grep.LineLeaves | syscalls/ece391grep.c:40-56 | Searching a complete first line and then what follows is searching the whole |
| Grep.FullBufferHasNewline | syscalls/ece391grep.c:29-38 | A full buffer holds a newline when lines are at most 1023 bytes |
| Grep.MatchesAt | syscalls/ece391grep.c:43-44 | The first-character test and the bounded comparison together decide whether the pattern stands here |
| Grep.SearchLine | syscalls/ece391grep.c:42-51 | A line is printed once, behind the file's name, if and only if it contains the pattern |
| Grep.CarryOver | syscalls/ece391grep.c:33-38 | The partial line moves to the front unharmed |
| Grep.SearchBuffer | syscalls/ece391grep.c:28-57 | What was printed, plus the search of what is left over and unread, stays the search of the whole file |
| Grep.FillBuffer | syscalls/ece391grep.c:22-27 | A read through the kernel continues the text in the buffer by what is coming; reading 0 or short means the file is done |
| Grep.DoOneFile | syscalls/ece391grep.c:9-66 | Streaming equals batch over the kernel's reads: prints exactly the lines, of what it sees of the file, that contain the pattern, once each and in order, wherever the reads begin and end, and terminates; and if the file's blocks follow each other in memory, that is the file |
| Grep.ForeignLine | syscalls/ece391grep.c:20-60 | A file, for every place its blocks first break, of which grep prints a line with a byte that no line of the file holds |
| GrepReads.GrepSeesFile | student-distrib/filesystem.c:183-235 | What grep's reads deliver is the file, for all contents, if and only if its blocks follow each other in memory |
| GrepReads.WrongIsSeen | syscalls/ece391grep.c:20-38 | Whatever a client keeps in its buffer, one wrong read makes what it sees differ from the file |
| GrepReads.ExactIsSeen | syscalls/ece391grep.c:20-38 | If every read is exact, what it sees is the file |
| Blink.PhaseClosedForm | fish/blink.S:49-90 | The clock of one node: t ticks after an add it is on if and only if t mod (on+off) is under on, and the countdown is what is left of that phase |
| Blink.TicksThroughRun | fish/blink.S:49-99 | Through any run of adds, removes, finds, syncs and tasklets, a node that is itself neither removed nor synced to stays on the list, and has ticked once per tasklet and changed in no other way |
| Blink.PhaseInRun | fish/blink.S:105-184 | So the closed form holds of a node in the list, in the number of tasklets since it was added, whatever is added, removed and synced around it |
| Blink.SyncInRun | fish/blink.S:240-275 | After a sync the two nodes have equal lengths, status and countdown at the end of every run in which neither is removed or synced to again; both keep their locations and characters, and the first one goes on as it would have |
| Blink.ShownThroughRun | fish/blink.S:49-99 | Through any such run the screen shows the phase of a node that has its location to itself |
| Blink.AddShows | fish/blink.S:164-170 | An added node is at the front of the list, on, and shown |
| Blink.OthersUndrawn | fish/blink.S:43-49 | No run ever changes an attribute byte, nor a character where no node is or is being added |
| Blink.SyncShowsOff | fish/blink.S:277-285 | The redisplay of a sync always draws the off character: the screen is right if and only if the copied node is off or both characters are the same |
| Blink.LocationZeroMakesCycle | fish/fish.c:160-170 | A node leaves its cell free exactly when its location is 0, and then the next add links the cell to itself |
| Blink.InsertKeepsPool | fish/blink.S:105-184 | Add prepends and keeps the list acyclic with its nodes exactly the cells in use |
| Blink.UnlinkKeepsPool | fish/blink.S:187-237 | Unlinking and freeing any node keeps the list acyclic with its nodes exactly the cells in use |
| Blink.RemoveSpares | fish/blink.S:187-237 | A removal takes exactly the most recently added node at the location off the list and leaves all others as they are |
| Blink.TickAllAt | fish/blink.S:49-99 | A traversal ticks each listed node once and no other cell |
| Blink.TickShowsPhases | fish/blink.S:49-99 | After a tick the screen shows each node's character for its new phase, if no other node shares its location |
| Blink.PoolFull | fish/fish.c:160-170 | Allocation succeeds exactly while fewer than 2000 nodes are listed |
| BlinkDevice.Blinker.Tasklet | fish/blink.S:49-99 | Each node ticks and repaints once, in list order, and the traversal ends |
| BlinkDevice.Blinker.Malloc | fish/fish.c:160-170 | The first free cell, or none |
| BlinkDevice.Blinker.Add | fish/blink.S:105-184 | Fails exactly for a location off the screen or a full pool, changing nothing; otherwise prepends and paints the node, and keeps the pool sound unless the location is 0 |
| BlinkDevice.Blinker.FindHelper | fish/blink.S:351-379 | The most recently added node at a location, or none |
| BlinkDevice.Blinker.Remove | fish/blink.S:187-237 | Removes the most recently added match and frees its cell, or fails and changes nothing |
| BlinkDevice.Blinker.FindNode | fish/blink.S:302-349 | A copy of the most recently added match, or failure |
| BlinkDevice.Blinker.Sync | fish/blink.S:240-297 | Gives the second node the first one's lengths, status and countdown and redraws it, or fails and changes nothing |
| BlinkDevice.Blinker.Serve | fish/blink.S:49-381 | Any sequence of calls with locations other than 0 refines the run, so what is said of runs holds of the device |
| Numbers.NumeralParses | student-distrib/lib.c:256-286 | The numeral denotes the value |
| Numbers.NumeralIsNumeral | student-distrib/lib.c:256-286 | It consists of digits and has no leading zero |
| Numbers.NumeralUnique | student-distrib/lib.c:256-286 | It is the only digit string without leading zeros that denotes the value |
| Numbers.NumeralAtMostBits | student-distrib/lib.c:256-286 | It has at most as many digits as the value has bits |
| Numbers.Strrev | student-distrib/lib.c:292-305 | Reverses the string in place and touches nothing before it |
| Numbers.Itoa | student-distrib/lib.c:256-286 | Writes the numeral, at most 32 digits, as a string |
| Numbers.PrintHex8 | student-distrib/lib.c:96-105 | Eight hexadecimal digits that denote the value |

## Left out

Each line names something the repository does that the model does not.

- Inline assembly, `iret`, TLB flushes and registers: a saved context is a value (esp, ebp).
- IDT, PIC, PIT, RTC, port I/O, sound, signals and the boot loader's structures.
- Scancode tables and modifier keys: keys arrive as characters. No key yields a carriage return, so keystrokes exclude it.
- `memcpy`, `memset` and `memmove` in assembly: sequence and loop copies stand for them.
- Program output with backspaces: the cursor could leave the page.
- Terminals.Isolation: needs Ctrl-L to be pressed only when the running terminal is the visible one. ClearIsLocal gives the exact condition.
- Terminals.Isolation: speaks of screens, cursors, lines and ready flags; the command buffer is shared, and Input says what that means.
- TerminalMachine.Machine.TerminalRead: the busy wait for the ready flag is a precondition, and so is a read that stays within the 640 bytes of the command buffer.
- TerminalMachine.Machine.AddToBuffer: needs room for the line in the command buffer when Enter is pressed.
- TerminalMachine.Machine.Serve: the machine starts after the first tick, with an arbitrary screen memory.
- TerminalMachine.Machine.Tick: models the terminal rotation and the mapping; the context switch of the same handler is Kernel.Machine.Tick.
- Fields that are only written: `previous_buf_length`, `previous_process`, the terminal's `current_pcb`.
- Kernel.Machine.Execute: programs run once all three shells are up, and the shell itself can always be loaded.
- Kernel.Machine.Halt: is one step, with interrupts off throughout, and only the pid-0 root may exit. ExitKeepsAccounting gives the exact condition.
- Kernel.Machine.Halt: clearing the parent's arguments is added by Programs.Computer.Halt; closing the descriptors is modelled apart, by Descriptors.Process.CloseAll.
- Programs.Computer.Halt: does not reload the page of a root shell that starts over.
- Stale descriptors in a reused PCB: runs start from a fresh table. HaltClosesAll says when halt leaves any.
- Descriptors.Process.OpenFile: the walk over the table stops at its eight entries; the code runs on into later fields when all are in use.
- Descriptors.Process.ReadFd: what a terminal or the RTC returns is a parameter.
- Descriptors.RunKeepsGood: has no write, which changes no table.
- Cat.PrintFile: assumes the named file is a regular one with a valid inode; writing to descriptor 1, which is always open, does not fail.
- FileSystem.ReadData: assumes the memory image continues one block behind each block of a file.
- FileSystem.ExecuteReadsExactly: assumes a file of at least 28 bytes.
- Grep.DoOneFile: assumes that what is seen of the file is NUL-free with lines of at most 1023 bytes, a non-empty pattern, and a last buffer byte that is not a newline. The file has a valid inode, for which the kernel's read and close do not fail.
- Commands.ParseCommand: assumes a name that fits the 128-byte buffer it is copied to before its length is checked.
- Commands.Arguments.GetArgs: assumes that the buffer has room for the terminating NUL when the argument string just fits the count.
- BlinkDevice.Blinker.Add: keeps the pool sound for locations other than 0; LocationZeroMakesCycle shows what 0 does. Runs exclude it.
- BlinkDevice.Blinker.FindNode: the copy to user space always succeeds, and so does the one from it in add.
- The cases of `printf` other than the eight-digit hexadecimal, and `strcpy`.
- The user library's `ece391_itoa` and `ece391_strrev`, which repeat the kernel's.
- `vidmap` and its pointer checks, and the demonstration programs.
