# A verified model of a small x86 teaching kernel

This project models the stateful core of the kernel in Dafny and proves what it keeps over whole
runs: the text console and the memory and number routines of `lib.c`, the block file system of
`filesystem.c`, the keyboard, line editor and terminals of `dev_kbd.c` and `dev_term.c`, the
process stack and descriptors of `syscalls.c`, and the page tables of `paging.c`.

`dafny verify dfyconfig.toml` checks everything.

Code that works by changing things is modelled by classes and arrays that are changed in place. Each
such class has a `Value()`, and each method is proved against a pure function on that value; the
theorems over runs are about those functions.

| file | what it holds |
|---|---|
| `Memory.dfy` | bytes, C strings, memmove, memset, memset_word, memcpy |
| `Numbers.dfy` | itoa, strrev and printf's number conversions, with their inverse |
| `Console.dfy`, `Paper.dfy` | the 25x80 screen, and the unbounded text it is a window on |
| `FileSystem.dfy`, `FileReads.dfy`, `Directory.dfy`, `Volume.dfy` | what one read delivers, runs of reads, names and listings, the code of filesystem.c |
| `Scancodes.dfy`, `LineEditor.dfy`, `Terminals.dfy`, `Sessions.dfy`, `KeyboardDriver.dfy` | decoder, editor, three terminals, whole sessions on them, the interrupt handler |
| `Descriptors.dfy`, `Processes.dfy` | open, read and close on a PCB, execute and halt on the kernel's counters |
| `Programs.dfy`, `Replies.dfy`, `SystemCalls.dfy` | what execute makes of a command over an image and runs of system calls, what programs get back from them, the code of syscalls.c |
| `Paging.dfy`, `FrameZero.dfy` | the page tables and the page walk, and what lies in the frame of process 0 |

## Main results

- **Console.** The screen is a window on a stack of cells: putc pushes, a line break pads, erase_char
  pops. After any stream, the 2000 cells are the last 25 rows of the text, laid out by a definition
  that knows no cursor (`Paper.ScreenIsLastRows`).
- **Terminals.** Under every interleaving of keys, switches, reads and output, each terminal's buffers
  are what its own keys make of them (`Terminals.EachTerminalAlone`), and each terminal, on display or
  in the background, goes on showing its own finished text and the line being edited, from a state
  without zero bytes that is reached from boot (`Sessions.EachTerminalShowsItsText`,
  `Sessions.SessionFromBoot`). The terminal in front is the one that the last function key named while
  Alt was held (`Terminals.FrontFromBoot`), and a typed text and Enter is what can be read
  (`Sessions.TypedTextIsRead`). A terminal that is left and brought back shows what it showed exactly
  when a stated condition on its zero bytes holds (`Terminals.LeaveAndReturn`).
- **File system.** The result and the bytes of read_data are given exactly, for every request and every
  image, failures included. As written it delivers the right bytes for every file of a size exactly on
  the requests that start on a block boundary or end strictly inside their first block; the same is
  proved of whole runs of reads (`FileSystem.RightExactlyWhenClean`,
  `FileReads.RunRightExactlyWhenClean`). With the in-block position added to the copy it is right for
  every request (`Volume.FileVolume.ReadDataRepaired`).
- **Processes.** On an image whose shell is a program, all runs of execute, halt, open, read and close
  after boot keep the counters, the program page, the kernel stack and the PCBs in agreement exactly
  when no command names a file that passes the probe and cannot be read to its end, and one terminal
  stays in front; with any two terminals some run on every image loses the agreement
  (`Programs.RunsAgreeExactly`). With any terminals in front, a run agrees exactly when no load of it
  fails and no process that a halt started is halted without a restart (`Processes.AgreesByHistory`);
  which halts start a new shell, and where the others resume, is given by the history of the run as well
  (`Processes.RestartsExactly`, `Processes.ResumesWhereLaunched`). The class of syscalls.c follows the
  specification from boot, call by call (`SystemCalls.Kernel.RunAll`).
- **System calls.** Over every run of system calls, by a process and those it launches, the reads of a
  descriptor give the results and the bytes of sequential reads of the file it was opened on
  (`Replies.OpenedFileIsRead`); block-sized reads until 0 give the whole file
  (`Replies.WholeFileIsRead`), reads of a directory until 0 its names
  (`Replies.OpenedDirectoryIsListed`), and getargs the second word of the command that launched the
  process (`Replies.ArgumentComesBack`).
- **Paging.** After any set_up_program_paging and vidmap_helper calls, the walk of every 32-bit address
  gives the intended mapping and nothing else (`Paging.PageTables.RunAll`). The frame of process 0, and
  no other, holds the PCBs and kernel stacks of all processes (`FrameZero.BlocksLieInFrame`).

## Where the code and its comments or intent differ

The model follows the code; the members named are the proved statements.

- `filesystem.c:336` copies a first block that is read to its end from its start, not from the
  position asked for. `RightExactlyWhenClean` says when this matters, `ReadDataRepaired` that adding
  the position is the cure.
- `filesystem.c:318` loops while `<=`, so a read that ends on a block boundary also checks the next
  block number and fails if it is bad (`ReadSucceedsExactly`, with an image in `BoundaryImageFails`).
- `filesystem.c:315` adds in 32 bits: a request that wraps reads nothing and returns 0
  (`ReadNeverFails`).
- `filesystem.c:201` adds a failed result of -1 to the offset. The offset counts the bytes delivered
  exactly when no read has size 0 (`OffsetCountsBytesExactly`); such a read makes the next one repeat a
  byte (`ZeroReadStepsBack`), and at the start of a file it makes every later read fail
  (`ZeroReadKillsDescriptor`).
- `filesystem.c:263` lets index 63 through, which is behind the directory (`ReadDentryByIndex`).
- An empty name ends a directory listing early (`EveryListingIsComplete`).
- `filesystem.c:211-213` promises -1 for a bad inode number; read_data does not look at it, so the
  model requires it to be in range.
- `paging.c:70` says the first program is at 8 MB; it is at 4 MB, on top of the kernel. A process can
  write into the kernel's 4 MB exactly when it is process 0 (`KernelIsReachableFromProcessZero`); all
  PCBs and kernel stacks lie there (`BlocksLieInFrame`), so launches and halts change memory of process
  0 (`LaunchChangesFrameZero`, `HaltChangesFrameZero`), and loading process 0 spares them exactly when
  its file has at most 0x3AA000 bytes (`LoadSparesBlocks`).
- `syscalls.c:82` tests for the last process in three ways. With one terminal in front two of them
  always agree with "pid 0", the first only until pid 0 is first halted, because halt never resets
  `term_pcb` (`RestartsExactlyPidZero`, `TestsDisagree`). With another terminal in front the test
  restarts a shell for a process that has a parent (`SwitchedTerminalRestarts`), and always restarts
  for one that was the first on its terminal (`ParentlessRestarts`).
- `syscalls.c:85` starts the new shell on the kernel stack of the process that halts. When that shell
  is later halted without a restart, it resumes there and not on the stack of the process below, inside
  the earlier halt, which takes one more program off the terminal's count (`ResumesInsideExactly`).
  With any two terminals there is such a run from boot (`ResumesOnOwnStack`, `SwitchingBreaks`).
- `syscalls.c:246` returns after the counters have moved when a load fails (`StepOnAgrees`, with an
  image in `BrokenRun`).
- `syscalls.c:217` does not compare the number of bytes read with four: a shorter file passes the probe
  if the stack happens to hold the rest (`HasMagic`, `LaunchedExactly`).
- `syscalls.c:173` speaks of the rest of the command as arguments; only the second word is kept
  (`CommandRoundTrip`).
- `dev_term.c:104` and `dev_term.c:133` stop at a zero byte, and a terminal that was never left has a
  zeroed record: from boot, Alt-F2, Enter, a, Alt-F1, Alt-F2 loses the letter from the screen
  (`FirstVisitLosesText`). Clearing each terminal once cures it for good (`VisitAllCleans`,
  `NoZerosForever`).
- `dev_kbd.c:242` and `dev_kbd.c:280` clear the ready flag, so a finished line can be read exactly as
  long as no character, backspace or Enter reaches the terminal (`LineStaysReadable`).
- `dev_kbd.c:213` clears the screen and keeps the line buffer: Ctrl-L in the middle of a line leaves a
  line that is not on the screen (`ClearForgetsLine`).
- `lib.c:183-207` puts program output and the complaint of `dev_kbd.c:223` at the cursor, where the line
  being edited may be unfinished. `OutputOverLine` says when the cells before the cursor still spell the
  line; backspace then erases output (`BackspaceErasesOutput`).

## Model

| member | source | states |
|---|---|---|
| Memory.MemMove | lib.c:424-442 | the destination gets the bytes the source had, for every overlap and in both directions, and nothing else changes |
| Memory.MemSet | lib.c:295-329 | for every alignment and length the byte prefix, word body and byte tail fill exactly the n bytes with the low byte of c |
| Memory.MemCpy | lib.c:378-415 | the word copy equals the byte copy for every alignment, between two memories or in one whenever the destination does not start strictly inside the source |
| Memory.MemSetWord | lib.c:338-350 | the two low bytes are repeated n times and nothing else changes |
| Numbers.StrRev | lib.c:263-276 | the string is reversed in place, everything else unchanged |
| Numbers.Itoa | lib.c:227-257 | the buffer gets the numeral of the value and a NUL within 33 bytes, for every 32-bit value and radix 2 to 36 |
| Numbers.NumeralRoundTrip | lib.c:227-257 | a digit string denotes the value without leading zeros if and only if it is the one itoa writes |
| Numbers.CanonicalUnique | lib.c:227-257 | two numerals without leading zeros for one number are the same string |
| Numbers.AlternateHex | lib.c:79-98 | %#x hands puts exactly 8 hexadecimal digits that denote the value |
| Numbers.SignedDecimal | lib.c:110-124 | %d prints a string that reads back as the signed value, the least 32-bit integer included |
| Numbers.SignedRoundTrip | lib.c:110-124 | reading the signed numeral of any integer gives the integer back |
| Console.TextConsole.Clear | lib.c:20-26 | the 2000 cells become blanks with attribute 7; the bytes behind them stay |
| Console.TextConsole.Scroll | lib.c:578-593 | rows 1 to 24 move up one row and the last row is blank, through the overlapping memmove |
| Console.TextConsole.PutChar | lib.c:183-207 | the screen becomes the specified one: cell, wrap, line break and scroll |
| Console.TextConsole.Puts | lib.c:158-165 | the characters before the NUL are put one after another and counted |
| Console.TextConsole.Erase | lib.c:553-568 | the cursor steps back, over a row start but not above the screen, and blanks the cell |
| Console.TextConsole.ClearAndPrompt | lib.c:570-576 | a cleared screen with the prompt |
| Paper.PutcShows | lib.c:183-220 | putc refines pushing one character on an unbounded text seen through a window of 25 rows |
| Paper.EraseShows | lib.c:553-568 | erase_char refines popping one cell of that text, never one above the window |
| Paper.BreakStartsRow | lib.c:183-207 | a newline or a return pads the text to the next row, any other character is appended |
| Paper.PutAllShows | lib.c:158-165 | a stream of characters refines pushing them all |
| Paper.LayoutPush | lib.c:183-207 | the layout defined by greedy wrapping grows by one character as the cursor rule says |
| Paper.StreamOnPaper | lib.c:183-220 | the text after any stream is its rows, and the window is the last 25 of them |
| Paper.ScreenIsLastRows | lib.c:183-220 | after any stream from a cleared screen every cell, attribute and the cursor are those of the last 25 rows of the laid-out text |
| LineEditor.KeyHolds | dev_kbd.c:240-287 | a key keeps the buffers equal to the editor's lines: push below 127, pop, reset on Enter; a ready line ends with a newline in the buffer |
| LineEditor.EchoStep | dev_kbd.c:240-287 | one key keeps the screen showing the finished text followed by the current line |
| LineEditor.EditedScreen | dev_kbd.c:240-287 | from a screen that shows a text, after any keys it shows that text followed by the surviving characters, and the line buffer is its last line |
| LineEditor.TypedLine | dev_kbd.c:258-287 | typing a text and Enter leaves its first 127 characters as the line to be read |
| LineEditor.BackspaceTakesBack | dev_kbd.c:240-287 | backspace takes back the key before it, on a full line the last one accepted; a tab is dropped |
| LineEditor.CellsSpellTheLine | dev_kbd.c:258-284 | the cells before the cursor spell the line buffer |
| Scancodes.DecodeCase | dev_kbd.c:348-361 | letters are upper case exactly when shift differs from caps lock, other keys follow shift alone, no key gives a carriage return |
| Scancodes.UpperRows | dev_kbd.c:348-361 | the two upper rows of the keyboard, plain and shifted, character by character |
| Scancodes.LowerRows | dev_kbd.c:348-361 | the two lower rows and backspace, tab, Enter, space and backslash |
| Scancodes.FlagsFromBoot | dev_kbd.c:303-320 | for every stream from boot caps lock is the parity of its presses and the other flags say whether the last event was a press |
| Terminals.EachTerminalAlone | dev_kbd.c:199-232 | for every interleaving each terminal's buffers are the fold of its own keys and reads |
| Terminals.FrontFromBoot | dev_kbd.c:321-345 | from boot, over every interleaving of events, the terminal in front is the one named by the last F1, F2 or F3 that came while Alt was held down, and terminal 0 if there was none |
| Terminals.ReadyHoldsLastLine | dev_kbd.c:267-277 | over every run from boot a ready flag means the output buffer holds the last finished line and its newline |
| Terminals.SaveRestore | dev_term.c:96-137 | what a saved screen comes back as, byte for byte |
| Terminals.BackgroundUntouched | dev_kbd.c:321-345 | no run changes the record of a terminal that stays in the background |
| Terminals.LeaveAndReturn | dev_kbd.c:321-345 | leaving and returning, with anything in between, restores the cursor, and the visible screen if and only if it has no zero byte or agrees behind it with the cleared screen |
| Terminals.NoZerosForever | dev_term.c:96-137 | once no screen has a zero byte no run brings one back |
| Terminals.FirstVisit | dev_term.c:117-137 | the first visit to a terminal puts a zero byte in the first cell |
| Terminals.FirstVisitLosesText | dev_kbd.c:321-345 | a run from boot after which a typed letter is in the line buffer and gone from the screen |
| Sessions.EachTerminalShowsItsText | dev_kbd.c:199-232 | from a state without zero bytes, every interleaving of keys, switches, reads and output that writes nothing in the middle of a line keeps each terminal, on display or saved, showing its own finished text and current line |
| Sessions.SwitchShown | dev_term.c:96-137 | a switch changes what no terminal shows, on display or saved |
| Sessions.ClearForgetsLine | dev_kbd.c:210-216 | after Ctrl-L the prompt and the line being edited are what is shown if and only if the line is empty |
| Sessions.OutputOverLine | dev_kbd.c:217-225 | after any output in the middle of a line the cells before the cursor spell the line if and only if the text on the paper ends with it |
| Sessions.PlainOutputOverLine | dev_kbd.c:217-225 | for output without line breaks, if and only if the line followed by the output ends with the line |
| Sessions.BackspaceErasesOutput | dev_kbd.c:240-250 | backspace then takes the last character off the line buffer and the last character of the output off the screen |
| Sessions.VisitAllCleans | dev_kbd.c:321-345 | a key sequence from boot, whatever is on the screen, after which no screen has a zero byte and all three terminals show the prompt |
| Sessions.SessionFromBoot | dev_kbd.c:199-232 | after it, every terminal shows its own text and line over every such session |
| Sessions.TypedTextIsRead | dev_kbd.c:199-287 | the scancodes of a text and Enter make the terminal ready with the first 127 characters of that text and a newline in its output buffer |
| Sessions.LineStaysReadable | dev_kbd.c:240-287 | over every run a finished line, and no later one, can be read if and only if no character, backspace or Enter has reached its terminal and it has not been read |
| Sessions.ReadyExactlyWhileUntouched | dev_term.c:34-55 | the same of the ready flag and the output buffer of the driver |
| KeyboardDriver.Terminal.InsertOp | dev_kbd.c:258-287 | line buffer, output buffer, ready flag and screen after a character, overflow and tab included |
| KeyboardDriver.Terminal.RemoveOp | dev_kbd.c:240-250 | line buffer, ready flag and screen after a backspace |
| KeyboardDriver.Terminal.Save | dev_term.c:96-108 | cursor and the screen up to its first zero byte over a zeroed buffer |
| KeyboardDriver.Terminal.Show | dev_term.c:117-137 | cleared screen, cursor and the saved screen up to its first zero byte |
| KeyboardDriver.Terminal.Read | dev_term.c:34-55 | term_read stops inside the output buffer and returns the last line, over a zeroed buffer |
| KeyboardDriver.Keyboard.UpdateFlags | dev_kbd.c:303-320 | the four modifier flags after a scancode |
| KeyboardDriver.Keyboard.ScancodeDecoder | dev_kbd.c:295-363 | flags, terminal switch and character of a scancode |
| KeyboardDriver.Keyboard.Handle | dev_kbd.c:199-232 | the handler's whole effect on flags, terminals and screen is one step of the specified driver |
| FileSystem.ReadNeverFails | filesystem.c:306-318 | on a well-formed file every request inside it returns exactly the bytes left, and 0 when offset plus length wraps |
| FileSystem.ReadSucceedsExactly | filesystem.c:315-321 | a request succeeds if and only if the blocks holding its bytes are good and, when it ends on a block boundary or is empty, the block at its end is good too |
| FileSystem.BoundaryReadFails | filesystem.c:318-321 | a one-block file with a bad second slot: reading the block fails, reading all but its last byte does not |
| FileSystem.BoundaryImageFails | filesystem.c:318-321 | a concrete image on which that happens |
| FileSystem.RepairedGathers | filesystem.c:333-338 | with the in-block position added the bytes gathered are the file's for every offset and length |
| FileSystem.RightExactlyWhenClean | filesystem.c:318-342 | the code as written delivers the file's bytes for every file if and only if the request is aligned or ends inside its first block |
| FileSystem.UncleanDiffers | filesystem.c:333-338 | a concrete file for which any other request gets a wrong first byte |
| FileSystem.UncleanGathers | filesystem.c:333-338 | what any other request gets: the first bytes of its first block in place of the last ones, and the rest right |
| FileReads.OffsetStopsAtEnd | filesystem.c:188-206 | over reads of positive sizes the offset is the sum of the sizes cut at the file size, and a read returns 0 exactly at the end |
| FileReads.OffsetDrift | filesystem.c:199-201 | for any image and sizes the offset is the start plus the bytes delivered less the number of failed reads |
| FileReads.OffsetCountsBytesExactly | filesystem.c:199-201 | on a well-formed file the final offset is the start plus the bytes delivered if and only if no size is 0 |
| FileReads.ZeroReadStepsBack | filesystem.c:199-205 | a read of size 0 fails and makes the reads behind it start one byte earlier |
| FileReads.DeliveredIsPieces | filesystem.c:188-206 | what positive reads deliver through the moving offset is the concatenation of the pieces at the running sums |
| FileReads.ReadsExtend | filesystem.c:188-206 | one more read adds its result to the results and the offset and its piece to the bytes |
| FileReads.RunRightExactlyWhenClean | filesystem.c:188-206 | a run of reads of positive sizes delivers the file's bytes, for every image and file of a size, if and only if each read is clean |
| FileReads.WholeFile | filesystem.c:188-206 | block-sized reads until the first 0 deliver the whole file |
| FileReads.ZeroReadKillsDescriptor | filesystem.c:199-205 | a read of size 0 at the start makes all later reads fail |
| FileSystem.ImageOf | filesystem.h:27-48 | every content up to the size limit is the content of a file on some image that can be mounted |
| Volume.FileVolume.ReadBlocks | filesystem.c:318-344 | the loop terminates, fails exactly on a bad block number from the first to the one at offset plus length, and gathers the specified bytes, for both forms of the whole-block copy |
| Volume.FileVolume.ReadData | filesystem.c:291-345 | result and buffer for every request, error cases and 32-bit wrap included: after a failure the bytes before the first bad block are there, and nothing else changes |
| Volume.CopiedExactly | filesystem.c:318-338 | the bytes in the buffer are the longest part of the request that lies in good blocks |
| Volume.FileVolume.ReadDataRepaired | filesystem.c:291-345 | with the in-block position added, every successful request leaves the file's bytes in the buffer and the rest unchanged |
| Volume.StrNCmp | lib.c:455-469 | 0 if and only if the two names agree, otherwise the signed difference of the first characters that differ |
| Volume.FileVolume.ReadDentryByIndex | filesystem.c:261-273 | the entry, the 64 bytes behind the boot block for index 63, failure above |
| Volume.FileVolume.ReadDentryByName | filesystem.c:230-251 | the first of the 63 slots with that name; fails if and only if the name is empty or no slot matches |
| Directory.LookupFindsFirst | filesystem.c:230-251 | what a name finds is the first slot with it, and nothing if and only if the name is empty or no slot matches |
| Directory.ReadIsName | filesystem.c:89-111 | the part of the buffer that the result of a directory read covers is the name |
| Volume.FileVolume.DirRead | filesystem.c:89-111 | one step of the directory: the padded name, the new count, and a result that covers exactly the name, 0 at the end |
| Directory.EveryListingIsComplete | filesystem.c:89-111 | the bytes covered by the results of any number of listings are every name once in order if and only if no name is empty |
| Directory.ListedNameIsFound | filesystem.c:230-251 | a listed name that is not empty can be looked up and finds its own slot if and only if no earlier slot has the name; an empty one finds nothing |
| Descriptors.FileRunIsTable | syscalls.c:366-498 | over every run of open, read and close from a launch the descriptor array is the table of open files, each slot with the operation table, inode and offset, and every call returns what the table says |
| Descriptors.FileRunTidy | syscalls.c:366-498 | over every run of open, read and close slots 0 and 1 stay, used slots have a table of a file type, and the counter follows the used slots but for opens of unknown types |
| Descriptors.OpenThenClose | syscalls.c:429-498 | open takes the lowest free slot and gives it the clock, directory or file table for type 0, 1 or 2, fails exactly when all are taken, and close undoes it |
| Descriptors.ClosedFromCloses | syscalls.c:113-120 | halt's loop leaves the descriptor array as at launch and takes the used slots off the counter |
| Processes.MaskFindsPcb | syscalls.c:49-59 | masking any stack pointer on a process's stack finds its PCB |
| Processes.StepAgrees | syscalls.c:68-120 | a call keeps the counters, page, stack and PCBs in agreement if and only if it is neither a launch whose load fails nor a halt that resumes inside an earlier halt |
| Processes.AlwaysAgrees | syscalls.c:68-322 | every state of a run of execute, halt, open, read and close after boot agrees, with 1 to 6 processes, if and only if no load of the run fails and no halt resumes inside an earlier one, whichever terminals are in front |
| Processes.ResumesInsideExactly | syscalls.c:82-154 | a halt resumes inside an earlier one if and only if it starts no shell and the halted process was started by a halt |
| Processes.AgreesByHistory | syscalls.c:68-322 | every state of a run agrees if and only if no load of it fails and no process that a halt started is halted without a restart |
| Processes.OneTerminalAgrees | syscalls.c:68-322 | with one terminal in front every state agrees if and only if no load fails |
| Processes.BornAs | syscalls.c:255-302 | over every run up to the first call that breaks the agreement a process has the parent, the argument and the stack pointer of the call that launched it, whatever was called since |
| Processes.TermPcbHistory | syscalls.c:263-270 | over every such run a terminal's pointer is the PCB of the process last launched on it |
| Processes.ParentHistory | syscalls.c:263-270 | over every such run the parent of a process is the one launched before it on its terminal, and it has none if and only if it was the first ever launched there |
| Processes.RestartsExactly | syscalls.c:82-86 | over every such run and for any terminal in front, halt starts a shell if and only if the process is pid 0, was the first ever launched on its terminal, or at most one program is charged to the terminal in front |
| Processes.ResumesWhereLaunched | syscalls.c:298-302 | over every such run the stack pointer a process returns to is exactly that of the call that launched it, on the stack below if that was execute, and on its own if it was halt |
| Processes.ReturnsBelowExactly | syscalls.c:147-154 | over every such run the stack pointer is on the stack of the process below if and only if the process was launched by execute |
| Processes.ResumesOnOwnStack | syscalls.c:82-154 | with any two terminals a run from boot after which a halt resumes on the stack of the process it leaves and the counters disagree |
| Processes.RestartsExactlyPidZero | syscalls.c:78-86 | in every run with one terminal in front halt restarts the shell if and only if the process is pid 0; two tests say that alone, the first also that pid 0 was never halted before |
| Processes.TestsDisagree | syscalls.c:82-86 | after boot and one halt the new pid 0 has a parent while the two other tests hold |
| Processes.StackedStep | syscalls.c:255-273 | a call keeps the processes stacked, each launched from the stack of the one below |
| Processes.AlwaysStacked | syscalls.c:68-120 | every state of every run with one terminal in front is stacked, and pid 0 has a parent if and only if it was halted before |
| Processes.HaltReturnsToLauncher | syscalls.c:87-154 | in every such run any process but pid 0 returns to the stack of its launcher with all descriptors closed, whatever it opened, and no other PCB changed |
| Processes.SwitchedTerminalRestarts | syscalls.c:82-86 | a run in which halt, with another terminal in front, restarts a shell for a process with a parent |
| Processes.ParentlessRestarts | syscalls.c:263-266 | a process launched from the first shell while another terminal is shown has no parent and restarts whatever is in front |
| Programs.CommandRoundTrip | syscalls.c:182-200 | a command line is taken apart into its first two words |
| Programs.LaunchedExactly | syscalls.c:215-226 | below the limit a name is launched whatever the stack holds if and only if it finds a file of at least four bytes with the magic bytes that can be read to its end |
| Programs.BrokenLoad | syscalls.c:215-246 | a concrete image with a good shell and a file that passes the checks and fails to load |
| Programs.StepOnAgrees | syscalls.c:68-246 | a system call breaks the agreement if and only if it is an execute below the limit of a name whose file passes the probe and cannot be read to its end, or a halt that resumes inside an earlier halt |
| Programs.RunAgreesExactly | syscalls.c:68-498 | a run on any image with any terminals in front ends in agreement if and only if none of its calls is one of those |
| Programs.SwitchingBreaks | syscalls.c:68-154 | on every image whose shell is a program, and for any two terminals, a run of four calls after boot loses the agreement |
| Programs.RunsAgreeExactly | syscalls.c:68-498 | on an image whose shell is a program all runs of all system calls, with the terminals of a set in front, keep the agreement if and only if no command names a file whose load can fail and the set has one terminal |
| Programs.BrokenRun | syscalls.c:246 | a concrete image with a good shell on which a run with one terminal in front loses the agreement |
| Programs.WellFormedIsSafe | syscalls.c:246 | no command names such a file when every named file can be read to its end |
| Programs.RunOnIsRun | syscalls.c:68-498 | the states of a run of system calls that ends in agreement form a sound run, to which the results on processes apply |
| Replies.DescriptorReads | syscalls.c:366-379 | over every run of system calls, by a process and those it launches, the reads of a descriptor that stays open return the results, give the bytes and leave the offset of reads of those sizes from its offset |
| Replies.OpenedFileIsRead | syscalls.c:366-474 | a process that opens a regular file by name and reads its descriptor gets the results and bytes of reads of those sizes from the start of that file |
| Replies.WholeFileIsRead | syscalls.c:366-474 | block-sized reads until the first 0 give the whole file |
| Replies.DirectoryGoesRound | filesystem.c:89-111 | over every run the directory reads, whoever makes them, go through the names and the end round and round from where dir_count stood |
| Replies.OpenedDirectoryIsListed | syscalls.c:366-474 | a process that opens a directory with dir_count at 0 and reads until the first 0, with no other reader, gets exactly the names with their lengths when none is empty |
| Replies.ArgumentComesBack | syscalls.c:182-276 | getargs by a process gives exactly the second word of the command that launched it, after any calls in which it does not halt |
| Replies.CatGetsFile | syscalls.c:366-474 | the run of a program that opens a file and reads blocks, one more than it has, gives the file |
| Replies.LsGetsNames | syscalls.c:366-474 | the run of a program that opens a directory and reads it once more than it has entries gives the names and then 0 |
| Replies.ShellGetsArgument | syscalls.c:182-276 | on every image whose shell is a program, "shell x" executed by the first shell gets "x" from getargs |
| SystemCalls.Kernel.HasMagic | syscalls.c:211-226 | a file passes the probe if and only if its first block is good and its start, over the bytes already on the stack, is the magic bytes |
| SystemCalls.Kernel.LoadProgram | syscalls.c:244-246 | a load succeeds if and only if the file can be read to its end, and then the program page has the whole file at its load address |
| SystemCalls.Kernel.Exec | syscalls.c:167-327 | refused, failed to load or launched, exactly, from image, name, limit and stack; the new kernel state, the loaded page, that the load spares PCBs, kernel stacks, file system and kernel image, and that no program page from 1 on but the new one changes |
| SystemCalls.Kernel.SparedExactly | syscalls.c:242-246 | a load spares them if and only if it is not for process 0 or the file ends below the lowest PCB and apart from both images |
| SystemCalls.Kernel.HaltProcess | syscalls.c:68-154 | the kernel state at the jump of halt, the stack pointer it resumes on, and that no program page from 1 on changes but that of a restarted shell |
| SystemCalls.Kernel.OpenFile | syscalls.c:411-474 | open by name over the volume, failures included |
| SystemCalls.Kernel.CloseFile | syscalls.c:483-498 | close of a descriptor, failures included |
| SystemCalls.Kernel.ReadSlot | syscalls.c:366-379 | read by descriptor and table: the bytes of a regular file at the slot's own offset, which moves by the result, or the next name of the directory; the error cases; and that nothing else changes |
| SystemCalls.Kernel.FileRead | filesystem.c:188-206 | the result, the bytes left in the buffer, after failures too, and the offset moved by the result |
| SystemCalls.Kernel.GetArgs | syscalls.c:507-523 | the argument padded with zeros to 1024 bytes and the rest unchanged when there is one and it fits, otherwise failure and nothing written |
| SystemCalls.Kernel.BootShell | syscalls.c:167-327 | the first shell takes the zeroed kernel to a state that agrees |
| SystemCalls.Kernel.Serve | syscalls.c:68-523 | one system call leaves the specified state and gives the specified result and bytes; the argument that getargs needs is there for every live process |
| SystemCalls.Kernel.RunAll | syscalls.c:68-523 | after boot and any execute, halt, open, read, close and getargs calls, up to the first that breaks the agreement, the kernel is in the specified state and the programs got the specified replies; the result says whether it agrees, and it does on a safe image with one terminal in front |
| SystemCalls.Kernel.ProgramPageIsActive | syscalls.c:241-242 | the user's program page translates to the frame of the active process |
| Paging.WalkIsIntended | paging.c:17-39 | the walk of every address over the built tables is the intended mapping |
| Paging.PageTables.PagingSetup | paging.c:17-39 | the tables after setup map the video page and 4 to 8 MB only |
| Paging.PageTables.SetUpProgramPaging | paging.c:69-73 | the program page moves to the frame of the process and nothing else changes |
| Paging.PageTables.VidmapHelper | paging.c:105-122 | the video page appears at the user address and nothing else changes |
| Paging.PageTables.RunAll | paging.c:17-122 | after setup and any sequence of program switches and vidmaps every 32-bit address translates as intended |
| Paging.ProcessesAreDisjoint | paging.c:69-73 | programs of different processes never reach the same byte |
| Paging.KernelIsReachableFromProcessZero | paging.c:69-73 | a process can write into the kernel's 4 MB if and only if it is process 0 |
| FrameZero.BlocksLieInFrame | syscalls.c:18-22 | a frame holds a byte of some PCB or kernel stack if and only if it is that of process 0, which holds them all |
| FrameZero.CallWrites | syscalls.c:113-297 | every word a call changes is in frame 0 and in one PCB: for a launch the new one's, but not its counter; otherwise the caller's descriptors and counter alone |
| FrameZero.LaunchIsInFrameZero | syscalls.c:255-297 | after every launch process 0 finds the new PCB, word for word, at a writable user address |
| FrameZero.LaunchChangesFrameZero | syscalls.c:255-259 | the first launch after boot changes a word of frame 0 |
| FrameZero.HaltChangesFrameZero | syscalls.c:113-120 | a halt that closes a file changes a word of frame 0 |
| FrameZero.LoadSparesBlocks | syscalls.c:242-246 | a load spares all PCBs and kernel stacks if and only if it is not for process 0 or the file has at most 0x3AA000 bytes |
| FrameZero.LoadSparesRange | syscalls.c:242-246 | and any other part of the kernel's 4 MB if and only if it is not for process 0 or the two are apart |

## Left out

- The format walk of `printf` and its `%c` and `%s`: it only strings together the conversions that are modelled.
- `set_cursor_loc` and all port writes (`vga.c`, `i8259.c`, `rtc.c`, `idt.c`): hardware registers without state of their own here.
- `map_term` and `remap_terminal_schedule` (`paging.c:145-183`): they use buffer contents as a frame address and have no clear meaning; terminal switching is modelled without the write to the video page table.
- `schedule.c`: its context switch is not called.
- `boot.S`, `isr_wrapper.S`, `x86_desc.S`, `kernel.c`: register saving, descriptor tables and boot order; iret, TLB flushes, cli, sti and busy waiting are not modelled, and a term_read is one atomic step.
- `write`, `term_write`, `vidmap`'s address test, `strcpy` and `strncpy`: only easy facts.
- Addresses and counts that overflow 32 bits in the memory routines, and the direction flag that memmove leaves set.
- Null pointers other than the buffer of read_data.
- Directory counts above 63, files of 1023 full blocks and programs that do not fit their page: the code then reads or writes outside its arrays.
- Commands without a separator in their first 128 bytes, for the same reason, and what execute reads behind the terminator of "shell" when halt restarts it.
- The memory of process 0 beyond the file loaded for it. Its frame is the kernel's own 4 MB, where the PCBs, the page tables and the file system image are; the model keeps those apart from the frame and assumes that the program of process 0 writes into none of them. For its load this is stated and proved (`SparedExactly`), and no contract speaks of the other bytes of frame 0.
- Processes.Halt: the launch of a new shell is part of the step, and of a halt that resumes inside an earlier one only the first statement of the rest is modelled, which loses the agreement; the frames it runs on have been used by the new shell, and runs end there.
- SystemCalls.Kernel.HaltProcess: a kernel without a program named "shell", where halt runs on past the failed restart, is not modelled.
- SystemCalls.Kernel.ReadSlot: what reads of the terminal and the clock return is a parameter, and their bytes are not modelled here; they leave the PCB alone.
