# A verified model of the ECE391 teaching kernel and its programs

The repository holds a small x86 kernel (`LinuxOS/student-distrib`) and the user programs that run
on it (`LinuxOS/syscalls`, `LinuxOS/fish`). This project models its stateful core in Dafny and
proves what that core is for. Code that updates variables, arrays and records step by step is
modelled by methods with loops and by classes with the source's fields; each such method is proved
against a specification function, and the properties of whole runs are lemmas about those
functions.

| part | modules | what is proved about it |
|---|---|---|
| streaming grep | `Grep`, `GrepExact`, `GrepLimits`, `Text` | the 1024-byte window prints exactly the matching lines of the text it sees, for every file; this is the output for the file itself, for every pattern, if and only if every line has at most 1024 bytes (and a stale newline behind the window does no harm) |
| processes and scheduler | `Stacks`, `Fairness`, `ProcessTable`, `Descriptors`, `Kernel` | the flat arrays represent one duplicate-free stack of pids per terminal over every run; call and return nest; the timer is round robin |
| terminals | `Screen`, `ScreenText`, `Terminals`, `Console` | the shared video page and the backing pages give every terminal a private screen; text that is written there shows line by line, scrolling included |
| line input | `LineInput`, `Keyboard` | the shell gets every line as it was edited, whatever earlier lines left in the buffers |
| file system | `FileSystem`, `FileReads`, `ReadRuns`, `Directory` | which single reads deliver the bytes at their offset, and which chunk sizes deliver whole files in order, exactly; interleaved readers each get their file; listing and lookup agree |
| blinker | `Blink`, `Blinker`, `Frames` | the pool list stays a list of exactly the used slots; closed form of the blinking; the merge of two text pictures |
| strings and memory | `Memory`, `Numbers`, `Argv` | numerals round-trip; aligned block operations equal byte loops; cutting and joining arguments undo each other |

The numbers of process slots and of terminals are parameters (6 and 3 in the source), so nothing is
settled by enumeration. Results of calls into code outside the model are parameters: whether a file
is executable, whether opening, reading or closing a file succeeds, the terminal that is visible
when a key arrives, what the caller's buffer held before.

## What the code does where it departs from its own documentation

* **grep** (`ece391grep.c:33`): a line of more than 1024 bytes is cut, and matches across the cut are
  lost (`GrepLimits.LongLineMissed`); the byte `data[1024]`, which is never initialised, is compared with
  a newline. `GrepExact.GrepCorrectIff` is the exact condition for correct output: every line has at most
  1024 bytes and, if that byte starts out as a newline, the first line across a multiple of 1024 ends
  just there. A line of exactly 1024 bytes is cut before its newline, which adds an empty line and
  prints nothing.
* **Halting the first shell of a terminal** (`sysCalls.c:348-356`) re-executes the shell while the
  terminal still names the dead process as its foreground process. The arrays stay a representation of stacks
  if and only if no smaller pid is free (`RootHaltRepresents`, `RootHaltBreaks`).
* **The close loop of halt** (`sysCalls.c:366-369`) runs after the parent has become the current
  process, so it closes the parent's descriptors. The parent's table is unchanged if and only if no
  descriptor from 2 on is open in both (`ParentDescriptorsKept`).
* **sys_open** on a file of an unknown type fails but keeps the descriptor (`OpenUsesOne`).
* **Console output**: a character that arrives in the last column is swallowed, whatever it is
  (`LastColumnSwallows`); a typed backspace in column 0 leaves the screen because `lib.c:358` tests the
  array instead of its element; `CursorStays` is the exact set of safe inputs.
* **terminal_read** (`terminal.c:25-33`) waits for and resets the visible terminal but reads the active
  one; when the two differ, the line typed next arrives if and only if the line read was a full one of 127
  characters or the next one is empty (`NextLineIff`). A key pressed before a line has been read makes the
  shell get an empty line instead (`TypeAheadLosesLine`).
* **read_data** (`filesys.c:107`) sets the offset to 0 at a block boundary while the loop index goes
  on, so a read that crosses a boundary and did not start on one takes wrong bytes. `ReadIsFlatIff` says
  exactly which reads deliver what lies at their offset, whatever the file holds, and
  `ChunksKeepOrderIff` which chunk sizes deliver files of a given length in order: those that divide
  4096, the multiples of 4096, and those so large that the second read starts in the last block or past it (or one
  byte into the last but one). At the end of the last block a read returns one less than it stored.
* **Blinker**: an entry at location 0 is accepted, but 0 marks a free slot, and what follows is no
  list any more; `mp1_ioctl_sync` (`blink.S:281-282`) never takes its conditional move and always shows the
  off character (`SyncKeepsScreenIff`); a length of zero, or of 0x8001 and more, lasts one tick, and
  0x8000 lasts 32768 (`Duration`).

## Model

| member | source | states |
|---|---|---|
| `Text.JoinAfterSplit` | LinuxOS/syscalls/ece391grep.c:29-57 | lines and text determine each other: joining the lines of any text with newlines gives the text back, and no line contains a newline |
| `Text.SplitAfterJoin` | LinuxOS/syscalls/ece391grep.c:29-57 | `Split` is the only way to cut a text into newline-free lines |
| `Grep.Read` | LinuxOS/syscalls/ece391grep.c:22 | a read fills the request until the end of the file and touches nothing outside it |
| `Grep.Strncmp` | LinuxOS/syscalls/ece391support.c:35-46 | zero exactly when the pattern occurs at that place of the window |
| `Grep.CopyDown` | LinuxOS/syscalls/ece391support.c:14-17 | the overlapping copy moves the string to the front unchanged and leaves the rest of the window alone |
| `Grep.Puts` | LinuxOS/syscalls/ece391support.c:19-22 | prints the bytes up to the first NUL |
| `Grep.SearchLine` | LinuxOS/syscalls/ece391grep.c:41-51 | prints a line, once, if and only if the pattern is a substring of it; the terminator keeps matches inside the line |
| `Grep.LineEnd` | LinuxOS/syscalls/ece391grep.c:30-32 | the end of the line: the first newline before `last`, or `last` |
| `Grep.MatchesIff` | LinuxOS/syscalls/ece391grep.c:42-51 | a line matches if and only if it is some text, the non-empty pattern and some more text |
| `Grep.MessagesAre` | LinuxOS/syscalls/ece391grep.c:17-63 | the texts of the three error messages |
| `Grep.CarryOver` | LinuxOS/syscalls/ece391grep.c:33-39 | an incomplete line is moved to the front, and the output still owed is that of the next window |
| `Grep.SearchWindow` | LinuxOS/syscalls/ece391grep.c:28-57 | one pass over the window prints what is owed for its lines; the carried-over bytes are the next bytes of the file, fewer than 1024 of them |
| `Grep.SearchFile` | LinuxOS/syscalls/ece391grep.c:20-60 | the read loop terminates after one read for every window and one more, and prints the whole scan; if a read before that fails, a beginning of it |
| `Grep.ReadsAre` | LinuxOS/syscalls/ece391grep.c:21-60 | the number of reads: one for an empty file, two up to 1024 bytes, and one more than the 1024-byte blocks at least |
| `Grep.ScanIsGrepOfSeen` | LinuxOS/syscalls/ece391grep.c:20-60 | the line-by-line scan by window positions equals splitting the seen text on newlines and filtering |
| `Grep.DoOneFile` | LinuxOS/syscalls/ece391grep.c:9-66 | for every NUL-free file and every pattern: prints exactly the matching lines of the text the window sees, in order and once each; a read error is met if and only if it comes within the reads the file takes, and then a beginning of the output is followed by the message; likewise the open and close failures |
| `GrepLimits.SeenExact` | LinuxOS/syscalls/ece391grep.c:33-56 | the program never drops a byte, and inserts no newline if and only if every 1024 bytes hold a newline and the stale byte cannot strike |
| `GrepLimits.GrepFaithful` | LinuxOS/syscalls/ece391grep.c:20-60 | the lines that are searched, empty ones included, are the lines of the file if and only if every line fits the window with its newline and, if `data[1024]` starts as a newline, every 1024th byte is a newline |
| `GrepExact.GrepCorrectIff` | LinuxOS/syscalls/ece391grep.c:20-60 | the output is that of splitting the whole file and filtering, for every pattern and file name, if and only if every line has at most 1024 bytes and, if `data[1024]` starts as a newline, the first line across a multiple of 1024 ends just there |
| `GrepExact.GrepCorrect` | LinuxOS/syscalls/ece391grep.c:20-60 | under that condition, for each single search |
| `GrepExact.HarmShows` | LinuxOS/syscalls/ece391grep.c:33-51 | a line that is cut inside shows in the search for one of its bytes |
| `GrepExact.HarmlessIff` | LinuxOS/syscalls/ece391grep.c:33-56 | all cuts fall just before newlines exactly under that condition |
| `GrepLimits.LongLineMissed` | LinuxOS/syscalls/ece391grep.c:33-41 | a concrete file outside it: a line of 1025 bytes whose match across the cut is not printed |
| `Stacks.NextLive` | LinuxOS/student-distrib/scheduler.c:59-64 | the search around the terminal numbers ends at a live terminal |
| `Stacks.StepWellFormed` | LinuxOS/student-distrib/sysCalls.c:159-201 | execute, halt, opening a terminal and a tick keep all pids distinct, in range, and the running terminal non-empty |
| `Stacks.ExecuteCalls` | LinuxOS/student-distrib/sysCalls.c:159-201 | execute puts the smallest unused pid on top of the running process and touches no other stack |
| `Stacks.OpenStarts` | LinuxOS/student-distrib/keyboard.c:170-195 | a terminal without a process gets the smallest unused pid and runs; one with a process changes nothing |
| `Stacks.TickIs` | LinuxOS/student-distrib/scheduler.c:52-64 | a tick starts a shell on an empty terminal 0 if a pid is free, and otherwise goes on to the nearest live terminal, counted around |
| `Stacks.StepKeepsCallers` | LinuxOS/student-distrib/sysCalls.c:346-348 | while a process lives, the stack below it does not change; the only event that ends it is its own halt, which leaves its callers |
| `Stacks.CallReturn` | LinuxOS/student-distrib/sysCalls.c:241-244 | over every run: when a process started by execute is gone, its caller is in the foreground of its terminal again and runs, whatever happened elsewhere in between |
| `Fairness.NextLiveIsAfter` | LinuxOS/student-distrib/scheduler.c:58-64 | the search finds the cyclically next live terminal |
| `Fairness.LiveFromLists` | LinuxOS/student-distrib/scheduler.c:62 | the list of live terminals is ascending and complete |
| `Fairness.ScheduleIsCircular` | LinuxOS/student-distrib/scheduler.c:58-76 | in every run that opens no terminal, the ticks go around the live terminals, despite executes and halts in between |
| `Fairness.RoundRobin` | LinuxOS/student-distrib/scheduler.c:43-76 | among any k consecutive ticks, k being the number of live terminals, every live terminal is served exactly once |
| `ProcessTable.FreeSlotIsLowestFree` | LinuxOS/student-distrib/sysCalls.c:310-318 | the slot found is the smallest pid on no stack |
| `ProcessTable.StartedRepresents` | LinuxOS/student-distrib/sysCalls.c:164-203 | starting a process pushes its pid on the terminal's stack; parent, terminal, foreground, page frame and active terminal follow |
| `ProcessTable.PoppedRepresents` | LinuxOS/student-distrib/sysCalls.c:346-372 | halting a process with a parent pops its stack in all arrays |
| `ProcessTable.RootHaltRepresents` | LinuxOS/student-distrib/sysCalls.c:346-356 | halting the first shell while no smaller pid is free restarts it in place |
| `ProcessTable.RootHaltBreaks` | LinuxOS/student-distrib/sysCalls.c:346-356 | while a smaller pid is free, the arrays after halting the first shell represent no stacks at all |
| `ProcessTable.TickRepresents` | LinuxOS/student-distrib/scheduler.c:66-76 | the switch to another terminal's foreground process keeps the representation, its page frame included |
| `ProcessTable.BootRepresents` | LinuxOS/student-distrib/sysCalls.c:31-41 | the first shell makes the zeroed arrays represent one stack |
| `ProcessTable.RepresentsOne` | LinuxOS/student-distrib/sysCalls.c:180-201 | the flat arrays determine the stacks |
| `ProcessTable.KStepRefines` | LinuxOS/student-distrib/sysCalls.c:159-201 | every event on the arrays refines its event on the stacks, halting a first shell under its guard |
| `ProcessTable.KRunRefines` | LinuxOS/student-distrib/sysCalls.c:310-318 | over every run of guarded events the arrays represent the stacks of the abstract run |
| `ProcessTable.ParentDescriptorsKept` | LinuxOS/student-distrib/sysCalls.c:366-372 | the close loop leaves the parent's descriptors alone if and only if none from 2 on is open in parent and child |
| `ProcessTable.FdsRepresent` | LinuxOS/student-distrib/sysCalls.c:437-540 | opening and closing files does not concern the stacks |
| `ProcessTable.StacksSpareThePcbs` | LinuxOS/student-distrib/sysCalls.c:294-298 | PCBs 8 KB apart and kernel stacks 4 KB apart never touch, for all pids, if and only if no stack uses its last 168 bytes |
| `ProcessTable.FramesDistinct` | LinuxOS/student-distrib/paging.c:187-195 | user pages of different pids are disjoint 4 MB frames |
| `ProcessTable.FrameIs` | LinuxOS/student-distrib/sysCalls.c:50-56 | the page of process p is the 4 MB from 8 MB + p * 4 MB on, and never touches the kernel's own page |
| `ProcessTable.KernelPageHolds` | LinuxOS/student-distrib/sysCalls.c:294-298 | the addresses of PCBs and stack tops, and for which pids they lie in the kernel's page |
| `ProcessTable.MappedOverRuns` | LinuxOS/student-distrib/paging.c:187-195 | over every run the mapped page is that of the running process, in physical addresses, and not the kernel's |
| `ProcessTable.NewProcessOpens` | LinuxOS/student-distrib/sysCalls.c:213-228 | a new process has input and output open and nothing else; the first known file it opens gets descriptor 2 |
| `ProcessTable.HaltedDescriptors` | LinuxOS/student-distrib/sysCalls.c:366-372 | what a halt does to every descriptor of parent, halted process and the others |
| `Descriptors.OpenSucceeds` | LinuxOS/student-distrib/sysCalls.c:437-480 | opening succeeds if and only if the file is known, of a known type, and a descriptor is free |
| `Descriptors.OpenThenRead` | LinuxOS/student-distrib/sysCalls.c:452-498 | the lowest free descriptor from 2 on reads from the start of the file; its reads go to the clock, the directory or the file handlers exactly for types 0, 1 and 2; the other descriptors are untouched |
| `Descriptors.FailedOpen` | LinuxOS/student-distrib/sysCalls.c:437-479 | an open that fails changes nothing, unless the file is known but of an unknown type |
| `Descriptors.CloseIs` | LinuxOS/student-distrib/sysCalls.c:521-540 | closing works exactly for used descriptors from 2 to 7 with handlers, and clears one flag |
| `Descriptors.ReaderIs` | LinuxOS/student-distrib/sysCalls.c:488-498 | reading calls nothing for descriptors out of range, the output and unused ones |
| `Descriptors.CloseUndoesOpen` | LinuxOS/student-distrib/sysCalls.c:521-540 | closing frees exactly that descriptor, and the next open gets it again |
| `Descriptors.OpenUsesOne` | LinuxOS/student-distrib/sysCalls.c:452-476 | a descriptor is used up exactly when the file is known and one is free, even if the type is unknown and the caller gets -1 |
| `Kernel.Kernel.constructor` | LinuxOS/student-distrib/sysCalls.c:31-41 | the globals before boot |
| `Kernel.Kernel.FindAvailablePid` | LinuxOS/student-distrib/sysCalls.c:310-318 | the first zero slot, or -1 |
| `Kernel.Kernel.ExecuteTerminal` | LinuxOS/student-distrib/sysCalls.c:104-235 | the new arrays are the specification's; without an executable or a free slot nothing changes |
| `Kernel.Kernel.Boot` | LinuxOS/student-distrib/sysCalls.c:104-235 | the first execute establishes the representation |
| `Kernel.Kernel.SysExecute` | LinuxOS/student-distrib/sysCalls.c:241-244 | pushes the smallest free pid on the caller's stack; succeeds if and only if the file is executable and a pid is free; a failure changes nothing |
| `Kernel.Kernel.OpenTerminal` | LinuxOS/student-distrib/keyboard.c:170-195 | the first visit of another terminal, as its flag tells, starts a shell there if a pid is free; the flags keep saying which terminals have a process |
| `Kernel.Kernel.SysOpen` | LinuxOS/student-distrib/sysCalls.c:437-480 | result and descriptor table are the specification's; the stacks stay as they are |
| `Kernel.Kernel.ReadF` | LinuxOS/student-distrib/filesys.c:159-164 | the descriptor of the running process moves on by the result as a 32-bit sum, the buffer holds the delivered bytes, and nothing else in the process table changes |
| `Kernel.Kernel.SysRead` | LinuxOS/student-distrib/sysCalls.c:488-498 | the guards, and which routine reads for each kind of descriptor with which effect |
| `Kernel.Kernel.ReadD` | LinuxOS/student-distrib/filesys.c:200-221 | the directory's read through the descriptor table |
| `Kernel.Kernel.SysClose` | LinuxOS/student-distrib/sysCalls.c:521-540 | result and descriptor table are the specification's |
| `Kernel.Kernel.CloseDescriptors` | LinuxOS/student-distrib/sysCalls.c:366-372 | closes, in the parent, what the child had open, and releases the child's descriptors |
| `Kernel.Kernel.SysHalt` | LinuxOS/student-distrib/sysCalls.c:324-372 | pops the process off its stack; for a first shell the representation survives if and only if no smaller pid is free |
| `Kernel.Kernel.NextTerminal` | LinuxOS/student-distrib/scheduler.c:22-64 | the search loop terminates and finds the next live terminal |
| `Kernel.Kernel.PitHandler` | LinuxOS/student-distrib/scheduler.c:43-76 | one tick: a shell on an empty terminal 0, otherwise the cyclically next live terminal's foreground process with its page frame |
| `Screen.ScrollMovesRows` | LinuxOS/student-distrib/lib.c:222-228 | the scrolling loop drops row 0, moves every row up and appends a blank one |
| `Screen.ClearBlanks` | LinuxOS/student-distrib/lib.c:63-69 | clearing leaves every cell of the page blank with its attribute byte set, and the bytes behind the screen alone |
| `Screen.CursorStays` | LinuxOS/student-distrib/lib.c:214-387 | the cursor stays in 80x25 if and only if the input is safe |
| `Screen.LastColumnSwallows` | LinuxOS/student-distrib/lib.c:215-218 | two different printable characters have the same effect if and only if the cursor is in the last column |
| `Screen.BackspaceUndoes` | LinuxOS/student-distrib/lib.c:269-292 | a backspace takes back a character if and only if it left the cursor short of the last column |
| `ScreenText.WithTextShows` | LinuxOS/student-distrib/lib.c:302-313 | text put into a row shows there and nowhere else, with its attribute |
| `ScreenText.LineAppears` | LinuxOS/student-distrib/lib.c:302-313 | a line of at most 79 columns appears as it was written |
| `ScreenText.LineBreak` | LinuxOS/student-distrib/lib.c:215-268 | a newline or return, and any character after column 79, goes to the start of the next row, or moves the rows up and blanks the last |
| `ScreenText.TabMoves` | LinuxOS/student-distrib/lib.c:294-302 | a tab moves by four columns, or to the next row from column 76 on |
| `ScreenText.BackspaceMoves` | LinuxOS/student-distrib/lib.c:269-292 | where a backspace goes, after a tab, in column 0 and elsewhere, and the one cell it blanks |
| `ScreenText.TabTakenBack` | LinuxOS/student-distrib/keyboard.c:200-217 | the four blanks of a typed tab and the backspace behind it put the cursor back and leave blanks |
| `ScreenText.TextAppears` | LinuxOS/student-distrib/lib.c:214-314 | for all lines of at most 79 columns, written from column 0 of any row on and separated by newlines: which character every cell of the screen shows afterwards, scrolling included, and where the cursor is |
| `Terminals.PrivateScreens` | LinuxOS/student-distrib/lib.c:42-57 | over every run, the screen of a terminal is that of a private screen fed only what is meant for it, however often the active and the visible terminal change |
| `Terminals.OwnScreen` | LinuxOS/student-distrib/lib.c:214-387 | while the tab flag stays down, that screen depends on the terminal's own characters alone |
| `Terminals.TabFlagActs` | LinuxOS/student-distrib/lib.c:353-357 | the raised flag makes the next typed backspace one of four columns and is down afterwards |
| `Terminals.TabFlagStays` | LinuxOS/student-distrib/lib.c:353-357 | nothing else lowers it |
| `Console.Console.constructor` | LinuxOS/student-distrib/lib.c:14-19 | blank memory represents blank private screens |
| `Console.Console.ScrollPage` | LinuxOS/student-distrib/lib.c:222-228 | the two in-place loops scroll the page and touch no other |
| `Console.Console.PutOnPage` | LinuxOS/student-distrib/lib.c:214-387 | one character changes page, cursor and tab flag as the private screen does |
| `Console.Console.Putc` | LinuxOS/student-distrib/lib.c:214-314 | output goes to the active terminal's screen and to no other |
| `Console.Console.PutcDisplay` | LinuxOS/student-distrib/lib.c:320-387 | echo goes to the visible terminal's screen and to no other |
| `Console.Console.SetActTerminal` | LinuxOS/student-distrib/lib.c:42-47 | changes no screen |
| `Console.Console.SavePage` | LinuxOS/student-distrib/lib.c:53 | the first copy puts every screen into its backing page |
| `Console.Console.ShowPage` | LinuxOS/student-distrib/lib.c:54-55 | the second copy shows the chosen terminal and keeps every screen |
| `Console.Console.SetDisplayTerminal` | LinuxOS/student-distrib/lib.c:52-57 | switching changes no screen, only which one is visible |
| `Console.Console.SetTabFlag` | LinuxOS/student-distrib/keyboard.c:211-213 | raises the tab flag |
| `Console.Console.ClearScreen` | LinuxOS/student-distrib/lib.c:63-69 | blanks the visible screen only |
| `Console.Console.ClearPosition` | LinuxOS/student-distrib/lib.c:394-397 | moves only the visible cursor home |
| `Console.Console.PerformAll` | LinuxOS/student-distrib/lib.c:42-57 | over every run of these operations on the shared memory, each terminal's page, at its address, and cursor are those of a private screen fed only what is meant for it |
| `LineInput.EmptyIsEditing` | LinuxOS/student-distrib/keyboard.c:13-18 | the zeroed buffers hold an empty line, so every history starts in the invariant |
| `LineInput.PressEdits` | LinuxOS/student-distrib/keyboard.c:146-218 | every editing key changes the buffered line as the user's line, whatever newline an earlier line left behind it |
| `LineInput.EnterWaits` | LinuxOS/student-distrib/keyboard.c:138-150 | Enter hands over the line as it stands and leaves one newline behind in the keyboard buffer |
| `LineInput.ReadStartsLine` | LinuxOS/student-distrib/terminal.c:30-33 | a read on the visible terminal starts an empty line |
| `LineInput.TypeAheadLosesLine` | LinuxOS/student-distrib/keyboard.c:146-150 | after a key pressed before the read the shell gets an empty command, which is the waiting line if and only if that was empty |
| `LineInput.CommandIsLine` | LinuxOS/syscalls/ece391shell.c:16-22 | the shell's command is the edited line if and only if it is not a full line of 127 characters after another one with old bytes behind the 128 copied ones |
| `LineInput.ReadIs` | LinuxOS/student-distrib/terminal.c:18-30 | what every read, short ones too, puts into every byte of the caller's buffer |
| `LineInput.BackspaceTakesBack` | LinuxOS/student-distrib/keyboard.c:206-218 | the editing keys, in terms of the line |
| `LineInput.LinesDelivered` | LinuxOS/student-distrib/terminal.c:25-34 | for every history of lines of at most 126 characters, each read before the next key, the commands are exactly the edited lines |
| `LineInput.ReadStartsLineIff` | LinuxOS/student-distrib/terminal.c:32-33 | a read leaves a state in which a line is being edited if and only if the terminal is visible or the line was a full one |
| `LineInput.NextLineIff` | LinuxOS/student-distrib/terminal.c:25-34 | a line of characters typed after a read arrives as typed if and only if the terminal was visible at that read, or the line read was a full one, or this one is empty |
| `LineInput.StrayCommand` | LinuxOS/student-distrib/terminal.c:32-33 | otherwise the shell gets nothing, or a command that starts with a newline |
| `Keyboard.Keyboard.constructor` | LinuxOS/student-distrib/keyboard.c:13-18 | empty buffers |
| `Keyboard.Keyboard.Flush` | LinuxOS/student-distrib/keyboard.c:146-150 | the whole keyboard buffer moves to the terminal buffer of the visible terminal |
| `Keyboard.Keyboard.KeyboardHandler` | LinuxOS/student-distrib/keyboard.c:87-452 | one key changes the visible terminal's buffers as specified, and no other terminal's |
| `Keyboard.Keyboard.TerminalRead` | LinuxOS/student-distrib/terminal.c:13-35 | the caller's buffer, the length returned, and the two flags that are reset |
| `Keyboard.Keyboard.ShellLine` | LinuxOS/syscalls/ece391shell.c:16-22 | the command string the shell obtains |
| `FileSystem.ReadOutcome` | LinuxOS/student-distrib/filesys.c:63-111 | no read stores more than was asked for |
| `FileSystem.StoredInGoodBlock` | LinuxOS/student-distrib/filesys.c:89-109 | every stored byte comes from an existing block of the file |
| `FileSystem.StoredIsFlat` | LinuxOS/student-distrib/filesys.c:89-109 | every stored byte is the one at its source position in the flat file |
| `FileSystem.StoredByteIs` | LinuxOS/student-distrib/filesys.c:83-108 | for any read: which block number of the inode and which place of that block each stored byte comes from |
| `FileSystem.DeliveredByteIs` | LinuxOS/student-distrib/filesys.c:83-108 | a straight read delivers, as byte i, byte (offset + i) % 4096 of the block whose number the inode holds at (offset + i) / 4096 |
| `FileSystem.FlatByteIs` | LinuxOS/student-distrib/filesys.c:83-91 | the same for the flat file, whose length is 4096*(length/4096+1)-1 |
| `FileSystem.ReadResultIs` | LinuxOS/student-distrib/filesys.c:69-110 | exactly when a read fails, and what it returns otherwise |
| `FileSystem.ConsecutiveIff` | LinuxOS/student-distrib/filesys.c:91-108 | these positions are consecutive for a number of bytes if and only if the read starts on a block boundary or does not cross one with them |
| `FileSystem.StraightIff` | LinuxOS/student-distrib/filesys.c:91-108 | the same for all the bytes a read returns, in terms of file length, offset and number of bytes |
| `FileSystem.ReadIsFlatIff` | LinuxOS/student-distrib/filesys.c:63-111 | for every file length, offset and number of bytes: a read delivers the bytes at its offset, whatever the file holds, if and only if it starts on a boundary, does not cross one, or crosses one too late to return bytes from behind it |
| `FileSystem.AlignedRead` | LinuxOS/student-distrib/filesys.c:63-111 | a read from a block boundary, such as loading a program, delivers all it was asked for that the file has |
| `FileSystem.FileIsDeliverable` | LinuxOS/student-distrib/filesys.c:74 | every byte of the file is among the deliverable ones |
| `ReadRuns.ChunkStaysInBlock` | LinuxOS/student-distrib/filesys.c:159-164 | a chunk that divides 4096 never crosses a block boundary |
| `ReadRuns.ReadKeepsOrder` | LinuxOS/student-distrib/filesys.c:159-164 | one read of a suitable chunk appends the next bytes of the flat file, makes progress, and returns 0 exactly at the end |
| `ReadRuns.InterleavedReads` | LinuxOS/student-distrib/filesys.c:159-164 | for every interleaving of reads on several descriptors in suitable chunks, each has delivered a beginning of its file |
| `ReadRuns.EndOfFileMeansAll` | LinuxOS/student-distrib/filesys.c:63-111 | a reader that got 0 has all 4096*(length/4096+1)-1 bytes, hence the whole file |
| `ReadRuns.OpenIsInOrder` | LinuxOS/student-distrib/sysCalls.c:452-473 | the descriptor that sys_open returns for a regular file is at its start, ready for such reads |
| `ReadRuns.ChunksKeepOrderIff` | LinuxOS/student-distrib/filesys.c:63-111 | for every file length and chunk size: all such files are delivered in order, by any number of reads, if and only if the chunk divides 4096, is a multiple of 4096, or its second read starts in the last block or past it, or one byte into the last but one |
| `ReadRuns.StrayReader` | LinuxOS/student-distrib/filesys.c:107 | for every other chunk size there is a file that is delivered out of order |
| `FileReads.ReadData` | LinuxOS/student-distrib/filesys.c:63-111 | the loop's result and the bytes it stores are the specified ones; the rest of the buffer is untouched |
| `Directory.Strncmp` | LinuxOS/student-distrib/lib.c:633-647 | zero exactly when the text before the first NUL equals the name |
| `Directory.ReadDentryByName` | LinuxOS/student-distrib/filesys.c:41-57 | the first entry of that name, or -1 |
| `Directory.ReadD` | LinuxOS/student-distrib/filesys.c:200-221 | the name of the next entry and its length; the position advances even at the end |
| `Directory.FindName` | LinuxOS/student-distrib/filesys.c:49-53 | the loop stops at the first entry of that name |
| `Directory.ListingIsPrefix` | LinuxOS/student-distrib/filesys.c:200-221 | repeated reads list the names in order up to the first empty one |
| `Directory.ListedNamesAreFound` | LinuxOS/student-distrib/filesys.c:41-57 | lookup finds a name in the listed part exactly if it is listed, and nothing exactly for names nowhere in the table |
| `Blink.PhaseStep` | LinuxOS/fish/blink.S:60-90 | a tick goes to the next place of the period |
| `Blink.ClosedForm` | LinuxOS/fish/blink.S:60-90 | for all on and off lengths: the entry after n ticks, from n modulo the period |
| `Blink.ClosedFormIs` | LinuxOS/fish/blink.S:60-90 | for lengths from 1 to 32767, in plain numbers: status, countdown and character after n ticks |
| `Blink.SyncedForever` | LinuxOS/fish/blink.S:267-275 | after a sync the two entries have equal status and countdown after every number of ticks |
| `Blink.SyncedIs` | LinuxOS/fish/blink.S:267-275 | which fields a sync copies and which it keeps |
| `Blink.PokeIs` | LinuxOS/fish/blink.S:43-47 | only the character byte of one cell changes |
| `Blink.TickKeepsScreen` | LinuxOS/fish/blink.S:60-90 | with distinct locations an interrupt keeps every cell showing the character of its entry's status |
| `Blink.AddKeepsScreen` | LinuxOS/fish/blink.S:135-169 | so does adding an entry at a new location |
| `Blink.SyncKeepsScreenIff` | LinuxOS/fish/blink.S:277-285 | a sync does so if and only if the source is off or the two characters are equal |
| `Blink.RemoveKeepsScreen` | LinuxOS/fish/blink.S:214-222 | and so does removing one |
| `Blink.RunInPicture` | LinuxOS/fish/blink.S:49-237 | over every run of interrupts, additions at new locations, removals and syncs under that condition, every cell with an entry shows the character of its status |
| `Blink.RemoveUndoesAdd` | LinuxOS/fish/blink.S:159-217 | removing what was just added restores the list |
| `Blinker.UsedPlusFree` | LinuxOS/fish/fish.c:160-175 | list length and number of free slots always add up to the pool |
| `Blinker.FullMeansNoFree` | LinuxOS/fish/fish.c:160-170 | the list fills the pool exactly when no slot is free |
| `Blinker.PushIsList` | LinuxOS/fish/blink.S:159-162 | a free slot put in front keeps an acyclic list of exactly the used slots |
| `Blinker.UnlinkIsList` | LinuxOS/fish/blink.S:206-222 | so does unlinking an element and clearing its slot |
| `Blinker.ZeroLocationBreaks` | LinuxOS/fish/fish.c:164 | an entry at location 0 at the head is represented by no list |
| `Blinker.Blinker.constructor` | LinuxOS/fish/blink.S:18-19 | the cleared pool is an empty list |
| `Blinker.Blinker.Malloc` | LinuxOS/fish/fish.c:160-170 | a free slot, or NULL exactly when all 2000 are used |
| `Blinker.Blinker.FindHelper` | LinuxOS/fish/blink.S:351-379 | the first list element with that location |
| `Blinker.Blinker.Add` | LinuxOS/fish/blink.S:105-184 | pushes the started entry on the front and shows it; fails exactly for locations from 2000 on or a full pool; location 0 breaks the list |
| `Blinker.Blinker.Remove` | LinuxOS/fish/blink.S:187-237 | deletes the most recent entry at the location, or fails and changes nothing |
| `Blinker.Blinker.FindPrevious` | LinuxOS/fish/blink.S:206-212 | the walk ends at the link that leads to the element |
| `Blinker.Blinker.Find` | LinuxOS/fish/blink.S:302-349 | the most recent entry at the location, or -1 |
| `Blinker.Blinker.Sync` | LinuxOS/fish/blink.S:240-300 | copies the timing and shows the off character; fails exactly when an entry is missing |
| `Blinker.Blinker.Tasklet` | LinuxOS/fish/blink.S:49-99 | ticks every entry once and shows the ones that flipped |
| `Blinker.Blinker.Perform` | LinuxOS/fish/blink.S:101-103 | each command changes list and screen as its specification |
| `Blinker.Blinker.PerformAll` | LinuxOS/fish/blink.S:49-300 | so does every run, which keeps the screen right |
| `Frames.PictureCellsAre` | LinuxOS/fish/fish.c:98-147 | the requested cells are exactly those not blank in both pictures, each once, in row-major order |
| `Frames.PictureRequestsAre` | LinuxOS/fish/fish.c:122-127 | each is requested with the first file's character for on, the second's for off, at (80 * row + column + 40) modulo 65536 |
| `Frames.CellsAre` | LinuxOS/fish/fish.c:98-147 | the same for the rest of the pictures from any row on |
| `Frames.ReadChar` | LinuxOS/fish/fish.c:102-116 | reading stops at the end of each line; the end of the file counts as a newline |
| `Frames.AddRow` | LinuxOS/fish/fish.c:100-130 | the inner loop terminates after the longer line and requests the row's cells |
| `Frames.AddFrames` | LinuxOS/fish/fish.c:98-147 | the loop over both files terminates and requests exactly the specified cells in order |
| `Memory.ReplicatedByte` | LinuxOS/student-distrib/lib.c:503 | the word that is stored holds the byte four times |
| `Memory.Memset` | LinuxOS/student-distrib/lib.c:473-507 | for every alignment and length: sets exactly the range |
| `Memory.Memcpy` | LinuxOS/student-distrib/lib.c:556-593 | for every alignment and length: copies exactly the range, if the destination does not start inside the source |
| `Memory.Memmove` | LinuxOS/student-distrib/lib.c:602-620 | for every overlap: the destination holds what the source held before |
| `Numbers.DigitsEvaluate` | LinuxOS/student-distrib/lib.c:405-435 | the numeral evaluates to the value, without leading zero except for 0 |
| `Numbers.NumeralUnique` | LinuxOS/student-distrib/lib.c:405-435 | it is the only such numeral |
| `Numbers.DigitCharIs` | LinuxOS/student-distrib/lib.c:406 | the digits are those of the table |
| `Numbers.DigitsLength` | LinuxOS/student-distrib/lib.c:423-428 | a value below radix^k has at most k digits |
| `Numbers.ReversedDigits` | LinuxOS/student-distrib/lib.c:423-434 | reversing the digits as they are produced gives the numeral |
| `Numbers.StrRev` | LinuxOS/student-distrib/lib.c:441-454 | reverses the string in place and nothing else |
| `Numbers.Itoa` | LinuxOS/syscalls/ece391support.c:49-81 | for every 32-bit value and radix 2 to 36: the stored string is the numeral |
| `Numbers.PrintHex8` | LinuxOS/student-distrib/lib.c:128-138 | always eight hexadecimal digits that evaluate to the value |
| `Numbers.PrintSigned` | LinuxOS/student-distrib/lib.c:154-167 | sign and numeral of the magnitude, for every 32-bit value |
| `Argv.ArgsAreWords` | LinuxOS/syscalls/ece391emulate.c:88-98 | without newlines the arguments are the words of the text |
| `Argv.JoinedWords` | LinuxOS/syscalls/ece391emulate.c:138-156 | the joined text has the same words, with single spaces and trimmed ends |
| `Argv.NormalIsJoin` | LinuxOS/syscalls/ece391emulate.c:138-156 | a text without surplus spaces is the join of its words |
| `Argv.JoinUndoesCut` | LinuxOS/syscalls/ece391emulate.c:138-156 | joining the arguments gives exactly the one normal text with the words of the argument text |
| `Argv.CommandArrives` | LinuxOS/syscalls/ece391emulate.c:81-98 | a name, a space and any text without newlines arrive as "./" with the name and the words of the text |
| `Argv.WordsArrive` | LinuxOS/syscalls/ece391emulate.c:81-98 | every list of proper words that is joined behind a name arrives as it was |
| `Argv.NewlinesInArgs` | LinuxOS/syscalls/ece391emulate.c:90-97 | a newline right behind a word separates, any other one ends the arguments |
| `Argv.ArgsCount` | LinuxOS/syscalls/ece391emulate.c:94 | at most every other byte starts an argument |
| `Argv.CutArguments` | LinuxOS/syscalls/ece391emulate.c:88-98 | the argument loop terminates; every pointer names its argument in the overwritten buffer |
| `Argv.Execute` | LinuxOS/syscalls/ece391emulate.c:76-100 | the argument vector of every command up to 1023 bytes, fewer than 1024 entries; longer commands fail |
| `Argv.GetArgs` | LinuxOS/syscalls/ece391emulate.c:131-157 | succeeds if and only if the joined arguments are shorter than the buffer, and then stores them |

## Left out

- Hardware: ports, interrupt controller, timer and clock programming, descriptor tables, Multiboot.
- Switching stacks: saved stack pointers, `iret`, and what an interrupted kernel path would have gone on to do; a context switch is a change of the running pid.
- Page tables apart from the frame mapped at 128 MB; `vidmap` and its mappings.
- Kernel.Kernel.ExecuteTerminal: does not cut the command line into name and arguments, load the image or read its entry point; the result of the executable check is a parameter, and the shell is taken to be executable.
- `getargs` of the kernel, `sys_write`, the file position arithmetic of the clock device, `fork`, `execv`, `mmap` and `readdir` of the emulator.
- Keyboard.Keyboard.KeyboardHandler: starts from the key's character; the shift and caps tables, the modifier flags and the echo to the screen, with the tab flag it raises, are not modelled.
- LineInput.LinesDelivered: `terminal_write` shares the terminal buffer; a write on the terminal between Enter and the read is outside the histories.
- Keyboard.Keyboard.TerminalRead: begins when the busy wait is over.
- Argv.GetArgs: the bytes behind the joined text are not specified, because a copy that fills the space exactly writes its terminator one byte behind.
- Grep.DoOneFile: files with NUL bytes are excluded, as the program treats a line as a C string; the loop over the directory is not modelled.
- Memory.Memmove: leaves the processor's direction flag set after copying downwards, which is not modelled.
- Frames.AddFrames: begins when both files are open and takes reads of one byte not to fail.
- Directory.ReadDentryByName: the null check of the name, which comes after the name has been measured.
- FileSystem.WellFormed: a file's block count, one more than its length fills, is taken to fit the inode's 1023 block numbers.
- The formats of printf other than `%#x` and `%d`: `%x` and `%u` print what `Itoa` stores.
- The demonstration programs, `tests.c`, and the copies of the support routines under `fish/`.
