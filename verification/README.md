# Verified model of a small x86 teaching kernel

This project models four parts of the kernel and its user programs in Dafny and proves what they are for.

* **Terminals** (`Screen`, `Keyboard`, `Consoles`, `Demultiplexer`, `Terminals`). Three virtual terminals
  share one set of live globals and one video page, which a switch exchanges for per-terminal copies.
  The proofs show that the scrolling page is a window onto an unbounded sheet, that the line a reader gets
  is the line the keys spell, and that nobody can tell the swapped copies from three independent terminals.
* **Files** (`Lines`, `Grep`, `FileSystem`, `Descriptors`). A read-only image of inodes and blocks, read
  through a descriptor table, and a line search over a 1024-byte sliding buffer. All agree with a file seen
  as a sequence of bytes.
* **Processes and paging** (`Paging`, `Processes`). Execute, halt and switch as steps over six slots and
  three parent chains; the page tables as an address translation.
* **Blinking characters** (`Blinkers`, `BlinkPool`, `Frames`, `Arguments`). A list threaded through a fixed
  pool, its countdown timing, the merge of two picture files, and the argument splitter and joiner of the
  emulation layer.

The code works in place on globals and arrays, and so does the model: each method follows the source's
loops and branches and is proved equal to one step of a specification function, and the properties are
lemmas about that function over all runs. Where the code does not do what it is meant to, the code is kept
a lemma states exactly when it does, and another gives a run or an input on which it does not:

* Ctrl-L clears whatever page is mapped, which need not be the one in view (`ClearIsDemultiplexedIff`,
  `ClearStrikesAnotherTerminal`).
* Keys pressed between Enter and the read change the line, and may overwrite the newline (`LateKeysIff`,
  `LateKeysShowIff`, `LateKeysSpareEveryLineIff`).
* Without the newline a long read runs on behind the line buffer (`ReadStaysInBufferIff`, `LateKeyOverruns`).
* The line search reports a line longer than its buffer in pieces (`BufferedIsNaiveIff`), and a newline left
  in the last byte of its uninitialised buffer can cut a line (`StaleNewlineHarmlessIff`, `StaleNewlineShows`).
* An `open` that fails on an unknown file type keeps the descriptor (`FailedOpenLeaksIff`, `FailedOpensLeakAll`).
* A program whose image fails to load costs a process slot (`BrokenLoadKeepsForestIff`, `BrokenLoadLosesASlot`).
* A child joins the chain of the terminal in view, so it need not return to its caller
  (`ChildReturnsToCallerIff`, `ChildReturnsElsewhere`), and its halt closes its parent's descriptors
  (`ParentKeepsFilesIff`, `ParentLosesItsFile`).
* A blinker added at location 0 leaves its slot free, and the next add then loses the list (`AddKeepsPoolIff`,
  `AddAtZeroLosesTheList`).
* An argument that ends exactly with the caller's buffer puts a NUL behind it (`GetArgs`).

Bytes are Dafny characters. A 32-bit or 16-bit wrap-around is written out where the code can reach it.

## Model

| member | source | states |
|---|---|---|
| Screen.ScrollUp | student-distrib/lib.c:272-293 | the column-by-column copy within one page is a simultaneous shift of all rows by one, with the bottom row's characters blanked |
| Screen.PutRefinesWrite | student-distrib/lib.c:232-269 | one character on the scrolling page is one character on a sheet without a bottom, where the cursor moves by one, back by one or to the next row start, and the window follows by at most one row |
| Screen.ScreenIsWindow | student-distrib/lib.c:232-293 | for any output whose backspaces stay on the page, the 25x80 page is the 25-row window onto the sheet |
| Screen.EveryScreenIsAWindow | student-distrib/lib.c:232-269 | any page and cursor can be taken as the top of such a sheet, so the window theorem always has a start |
| Screen.OutputStaysUniform | student-distrib/lib.c:232-293 | writing, erasing and scrolling never bring up an attribute other than the kernel's |
| Keyboard.TablesHoldText | student-distrib/keyboard.c:70-90 | apart from Enter and Backspace the three tables yield only printable text or nothing |
| Keyboard.CapsLockShiftsLetters | student-distrib/keyboard.c:70-90 | the Caps Lock table differs from the plain one exactly at the letters, where it has the capitals |
| Keyboard.ModifiersFollowTheKeys | student-distrib/keyboard.c:139-245 | after any scan codes Shift, Ctrl and Alt are down when their latest event was a press, and Caps Lock has toggled once per press |
| Keyboard.DigitRow | student-distrib/keyboard.c:248-258 | the twelve keys from scan code 0x02 type 1234567890-= and with Shift !@#$%^&*()_+, whatever Caps Lock says |
| Keyboard.TopRow | student-distrib/keyboard.c:248-258 | the twelve keys from 0x10 type qwertyuiop[], with Shift their capitals and braces, with Caps Lock alone capitals and brackets |
| Keyboard.HomeRow | student-distrib/keyboard.c:248-258 | the twelve keys from 0x1E type asdfghjkl;'`, with Shift their capitals and ':"~', with Caps Lock alone only the letters change; with Ctrl the L key clears instead |
| Keyboard.BottomRow | student-distrib/keyboard.c:248-258 | the eleven keys from 0x2B type the backslash and zxcvbnm,./, with Shift the bar, the capitals and <>?, with Caps Lock alone only the letters change |
| Keyboard.OtherKeys | student-distrib/keyboard.c:261-314 | Tab and Space type a blank, 0x0E and 0x1C are Backspace and Enter, and every other code but those of the rows and F1 to F3 presses no key |
| Keyboard.FunctionKeys | student-distrib/keyboard.c:198-221 | F1, F2 and F3 select terminals 0, 1 and 2 while Alt is down, and otherwise nothing |
| Keyboard.LineTakes127 | student-distrib/keyboard.c:116-132 | any number of typed characters spells the first 127 of them |
| Consoles.StepKeepsFaithful | student-distrib/keyboard.c:261-314 | every key, read and orderly output keeps the cells just before the cursor equal to the line in the buffer, until Enter |
| Consoles.RunShowsTranscript | student-distrib/keyboard.c:261-314 | after any run without Ctrl-L the screen is the screen before with the run's transcript put on it: accepted characters, erasures, newlines and output, in order |
| Consoles.RunIsWindow | student-distrib/lib.c:232-293 | so it is the window onto the sheet on which the transcript was written |
| Consoles.EnterStartsRow | student-distrib/keyboard.c:287-295 | an accepted Enter takes the cursor to the start of the next row, or of the last one, and one on an empty line does nothing |
| Consoles.ClearScreenBlanks | student-distrib/lib.c:24-37 | Ctrl-L leaves 2000 blanks, the cursor at the top and an empty line |
| Consoles.TypingSpells | student-distrib/keyboard.c:261-314 | after any keys the front of the buffer is the line they spell: insertions, deletions of the last character, the limit of 127, an empty Enter ignored |
| Consoles.LineDiscipline | student-distrib/terminal.c:166-207 | a read after Enter returns the spelled line cut to nbytes - 1, one newline and zero fill, whatever was in the buffer before, and leaves the terminal ready for the next line |
| Consoles.ReadErases | student-distrib/terminal.c:177-204 | a read puts NULs for the characters it took and a space for the newline it stopped at, and leaves the rest of the buffer and the screen alone |
| Consoles.ReadWaits | student-distrib/terminal.c:171 | before Enter a read changes nothing |
| Consoles.ScanCodesToLine | student-distrib/keyboard.c:247-314 | the same from raw scan codes, with the table chosen by Shift and Caps Lock |
| Consoles.ReadStaysInBufferIff | student-distrib/terminal.c:177-187 | the copying loop looks at no byte behind the line buffer if and only if nbytes is at most 129 or the buffer holds a newline |
| Consoles.ReadInMemory | student-distrib/terminal.c:177-187 | what lies behind the buffer plays no part in a read that stays in it; any other read takes the whole buffer |
| Consoles.LateKeyOverruns | student-distrib/keyboard.c:291-312 | a character, Enter and a character leave no newline, so the shell's read of 1023 bytes runs past the buffer |
| Consoles.LateLine | student-distrib/keyboard.c:261-314 | any editing keys after Enter that end in an accepted Enter give the reader the line as further edited |
| Consoles.LateKeysShowIff | student-distrib/keyboard.c:261-314 | a reader with room for the newline gets the same line in spite of any late editing keys if and only if they spell that line again and end in Enter, or none was accepted |
| Consoles.LateKeysSpareEveryLineIff | student-distrib/keyboard.c:261-314 | a reader too short for the newline is safe from any late keys, whatever the line, if and only if nbytes - 1 is at most the lowest place they write to |
| Consoles.LateKeysIff | student-distrib/keyboard.c:261-314 | any late keys, Ctrl-L among them, change no read of nbytes if and only if they leave every place up to the newline or the cut with the character it had |
| Consoles.LateKey | student-distrib/keyboard.c:261-314 | one key between Enter and the read changes what the reader gets if and only if it is a Backspace or a character that fits and the reader asks for more than the line |
| Demultiplexer.TerminalsAreIndependent | student-distrib/terminal.c:66-104 | over any keys, output, reads that stay in the line buffer, switches and process changes each terminal's page, cursor, line, count and Enter flag are what it would hold had it alone received what came while it was in view |
| Demultiplexer.PromptRunsStayWithin | student-distrib/terminal.c:166-207 | when every terminal's line is read before that terminal gets another character or Backspace, every read of the run stays in the line buffer, whatever its size |
| Demultiplexer.ClearIsDemultiplexedIff | student-distrib/lib.c:24-37 | a Ctrl-L acts on the viewed terminal alone if and only if the video page is mapped or both pages are blank already |
| Demultiplexer.ClearStrikesAnotherTerminal | student-distrib/lib.c:24-37 | a switch, output of a process there and a switch back lead from boot to a state in which Ctrl-L changes the other terminal's page |
| Demultiplexer.MappingAlwaysFollowsView | student-distrib/terminal.c:114-154 | the viewed terminal is never mapped to its own backing page |
| Demultiplexer.Act | student-distrib/keyboard.c:108-322 | every step keeps, for the live and all saved terminals, a cursor on the screen, a count of at most 127 and room before the cursor to erase the line |
| Demultiplexer.OutputIsShown | student-distrib/terminal.c:214-224 | any output puts its characters but NUL on the screen of the terminal in view, in order, and changes no line, count, flag, saved record or view |
| Demultiplexer.OutputIsOnPaper | student-distrib/lib.c:232-293 | so the screen after output is the window onto the sheet on which it was written |
| Demultiplexer.FunctionKeysSwitch | student-distrib/keyboard.c:198-221 | Alt and F1 to F3 bring terminals 0 to 2 into view and change no terminal's state |
| Demultiplexer.ClearBlanksMappedPage | student-distrib/lib.c:24-37 | Ctrl-L blanks the visible part of the mapped page only, and sends the cursor of the terminal in view home |
| Demultiplexer.ScanCodesReachReader | student-distrib/keyboard.c:108-322 | from the interrupt to the reader: scan codes that spell a line and end in Enter give the reader of the terminal in view that line |
| Demultiplexer.BackspaceStaysOnScreen | student-distrib/keyboard.c:261-278 | in every state of every terminal reached by reads that stay in the line buffer 80y + x is at least the count, so a backspace stays on the screen |
| Demultiplexer.ShownIsRead | student-distrib/keyboard.c:261-314 | through keys, reads that stay in the line buffer and switches, what stands before each terminal's cursor is what its reader will get |
| Demultiplexer.LineSurvivesSwitching | student-distrib/terminal.c:66-104 | a line typed into one terminal with switches and other traffic in between reaches that terminal's reader whole |
| Terminals.Driver.constructor | student-distrib/terminal.c:22-57 | the terminals start empty, valid and faithful with the video page mapped and no Enter pending, over any memory |
| Terminals.Driver.Putc | student-distrib/lib.c:232-269 | putc on the live globals is the screen's Put, on the video page whatever was mapped |
| Terminals.Driver.TerminalWrite | student-distrib/terminal.c:214-224 | writing puts every character but NUL on the screen, in order |
| Terminals.Driver.Clear | student-distrib/lib.c:24-37 | clear blanks the mapped page only and sends the cursor home |
| Terminals.Driver.TerminalSwitch | student-distrib/terminal.c:66-104 | the copies through the mapped page exchange the live state for the target's, and no third terminal changes |
| Terminals.Driver.KeybMain | student-distrib/keyboard.c:108-322 | one scan code changes the modifiers and the terminals as its decoded key does |
| Terminals.Driver.TakeLine | student-distrib/terminal.c:177-187 | the copying loop takes the characters before the first newline or the cut, zeroes them, and looks at exactly the bytes counted |
| Terminals.Driver.TerminalRead | student-distrib/terminal.c:166-207 | a read of any size fills the caller's buffer with what memory from the line buffer on holds, and counts it; it looks behind the buffer if and only if it is longer than 129 and finds no newline, and otherwise it is the terminal's own step and changes nothing behind the buffer |
| Grep.SearchLine | syscalls/ece391grep.c:41-52 | a line is reported if and only if the non-empty pattern occurs in it |
| Grep.DoOneFile | syscalls/ece391grep.c:9-67 | over a buffer that holds anything, the reports are the matching pieces of any NUL-free file for any NUL-free pattern, cut where a stale newline in the buffer's last byte cuts them, and no such newline is brought in |
| Grep.StaleNewlineHarmlessIff | syscalls/ece391grep.c:13-34 | a stale newline in the last byte changes no search if and only if no full buffer that starts with a shorter line ends inside a line before the newline is overwritten |
| Grep.StaleNewlineShows | syscalls/ece391grep.c:13-34 | a file of 1025 characters whose second line starts on the last byte of the buffer is cut |
| Grep.PiecesFindTheLines | syscalls/ece391grep.c:20-61 | when every line fits the buffer, searching the pieces reports exactly the matching lines, in order and once each |
| Grep.PiecesReportByPlace | syscalls/ece391grep.c:20-61 | for such a file the reports are the lines, by increasing place, that are some text, the pattern and some text, and every such line is there |
| Grep.PiecesCover | syscalls/ece391grep.c:20-61 | for any file the pieces hold every character but the newlines, in order |
| Grep.TornCovers | syscalls/ece391grep.c:20-61 | so do they when a stale newline cuts one |
| Lines.SplitIs | syscalls/ece391grep.c:32-33 | the lines of a text hold no newline and, with newlines between them, are the text |
| Grep.BufferedIsNaiveIff | syscalls/ece391grep.c:9-67 | buffered and naive search agree for every pattern if and only if no line is longer than 1024 bytes |
| FileSystem.JoinedAt | student-distrib/filesys.c:327-351 | byte k of the concatenated blocks is byte k mod 4096 of block k / 4096 |
| FileSystem.ContentsAt | student-distrib/filesys.c:327-351 | byte k of a file is byte k mod 4096 of its block k / 4096 |
| FileSystem.CopyBytes | student-distrib/filesys.c:327-353 | the block walk copies the slice up to the end of the file even when the count reaches past it, and fails if and only if a block it needs does not exist, with the bytes before that block copied |
| FileSystem.ReadData | student-distrib/filesys.c:303-354 | for all 32-bit arguments, including a wrapping offset + length, the result is -1 if and only if the inode, the offset or a block is out of range, and otherwise min(length, len - offset) bytes of the file; the buffer changes only by the bytes read before a missing block |
| FileSystem.LookupIsFirstMatch | student-distrib/filesys.c:237-268 | lookup gives the first entry whose field, up to its NUL, is the first 32 bytes of the non-empty name, and nothing if and only if no entry is so |
| FileSystem.ReadDentryByName | student-distrib/filesys.c:237-268 | so does the loop in place, although it runs one entry past the table |
| Descriptors.PerformKeepsFaithful | student-distrib/syscall-handler/syscall.c:90-188 | one call extends what its own descriptor has returned by the bytes it returns, and disturbs no other descriptor |
| Descriptors.DescriptorsAreFaithful | student-distrib/syscall-handler/syscall.c:90-188 | over any opens, closes and reads the bytes a file descriptor has returned since its open are the first fpos bytes of the file |
| Descriptors.OpenTakesLowestFree | student-distrib/syscall-handler/syscall.c:120-169 | a successful open takes the lowest free descriptor, never 0 or 1, and changes no other |
| Descriptors.FailedOpenLeaksIff | student-distrib/syscall-handler/syscall.c:141-167 | a failed open takes a descriptor if and only if the file type is unknown and the descriptor has no operations yet |
| Descriptors.FailedOpensLeakAll | student-distrib/syscall-handler/syscall.c:141-167 | six failed opens of an entry of unknown type take a new process's six descriptors, and the next finds none |
| Descriptors.LookupUndoesListingIff | student-distrib/filesys.c:79-115 | looking up every listed name gives the entry it came from if and only if listed entries that share a name are alike |
| Descriptors.LookupFindsPlaceIff | student-distrib/filesys.c:79-115 | it finds that entry's own place in the table, for every listed name, if and only if no two listed entries share a name |
| Descriptors.ReadGivesFile | student-distrib/filesys.c:177-209 | a read of an open file gives the next min(nbytes, len - fpos) bytes of its contents and moves on by as many; it is -1 if and only if nbytes is negative or one of their blocks is missing, and no other descriptor changes |
| Descriptors.ReadGivesName | student-distrib/filesys.c:79-115 | a read of an open directory gives the name of the entry at the position, cut to nbytes, and moves on by one entry, and past the table gives nothing |
| Descriptors.ReadRefuses | student-distrib/syscall-handler/syscall.c:90-102 | a read of a descriptor that is out of range, 1, or not open is -1 and changes nothing |
| Descriptors.CloseFreesItsOwn | student-distrib/syscall-handler/syscall.c:175-188 | a close frees exactly its own descriptor if that is open and from 2 to 7, and otherwise fails and changes nothing |
| Descriptors.OpenedReadsEntry | student-distrib/syscall-handler/syscall.c:141-168 | after an open the first read gives the beginning of the contents of the entry found by name, or the first name of the directory |
| Descriptors.Process.Open | student-distrib/syscall-handler/syscall.c:120-169 | open in place is OpenStep |
| Descriptors.Process.Close | student-distrib/syscall-handler/syscall.c:175-188 | close in place is CloseStep |
| Descriptors.Process.FileRead | student-distrib/filesys.c:177-209 | a file read fills the buffer with the next bytes and advances the position by their number, or leaves it alone |
| Descriptors.Process.DirectoryRead | student-distrib/filesys.c:79-115 | a directory read gives one clipped name, a NUL after it when there is room, and moves to the next entry |
| Descriptors.Process.Read | student-distrib/syscall-handler/syscall.c:90-102 | read dispatches on the descriptor: in place it is the read of ReadGivesFile, ReadGivesName or ReadRefuses |
| Descriptors.Process.Cat | syscalls/ece391cat.c:21-28 | reading until 0 ends, and outputs the whole file if and only if all its blocks exist |
| Descriptors.Process.Ls | syscalls/ece391ls.c:18-26 | reading a directory 32 bytes at a time ends, and gives the names in index order up to the first blank entry |
| Paging.Tables.PageInit | student-distrib/page.c:22-118 | the loops leave exactly the kernel page, the user page and the four video pages present |
| Paging.Tables.UserPageSetup | student-distrib/page.c:121-127 | only the frame of the user page changes |
| Paging.TranslatesExactly | student-distrib/page.c:22-127 | every 32-bit address translates to the video pages, the kernel page, the user window, or nowhere, and user code reaches only its window |
| Paging.ChangesKeepBooted | student-distrib/page.c:121-127 | any sequence of process and screen remappings keeps that translation, with the latest frame and screen |
| Paging.StoreInUserPage | student-distrib/process.c:324-328 | stores through the user page put each byte that fits at its place in the frame, change nothing else, and fault if and only if some byte does not fit |
| Paging.LoadingIsIsolated | student-distrib/process.c:313-328 | after any switches, loading a program faults if and only if it does not fit its window; the bytes that fit are in the process's frame and no other memory changes, fault or not |
| Paging.FramesAreApart | student-distrib/page.c:124 | the frames of different processes are disjoint and above the kernel and the screens |
| Processes.ExecuteKeepsForest | student-distrib/process.c:299-380 | a new process in the lowest free slot heads the chain of the viewed terminal, with descriptors 0 and 1, and no other PCB changes |
| Processes.NoSlotNoProcess | student-distrib/process.c:299-308 | with all six slots taken an execute changes nothing |
| Processes.HaltKeepsForest | student-distrib/process.c:120-167 | halting takes exactly the head off its chain and runs its parent, or, for a root, puts one new shell at the head of the viewed terminal's chain |
| Processes.SwitchKeepsForest | student-distrib/terminal.c:92-103 | a switch shows the target and adds exactly one shell if and only if the target's chain is empty, a slot is free and the shell is found |
| Processes.ProcessesStayAForest | student-distrib/process.c:120-380 | over every run from boot the used slots are the disjoint union of three acyclic parent chains, and the running process heads its own chain with its stack at 8 MB - 8 KB * pid and its user page at 8 MB + 4 MB * pid |
| Processes.RootHaltRestarts | student-distrib/process.c:132-140 | a root halt always finds a slot for the new shell, which runs in the viewed terminal |
| Processes.BrokenLoadKeepsForestIff | student-distrib/process.c:299-328 | an execute that gives up while loading keeps the forest if and only if there was no slot to take |
| Processes.BrokenLoadLosesASlot | student-distrib/process.c:299-328 | after boot a broken load does lose a slot |
| Processes.BrokenLoadOrphans | student-distrib/process.c:299-328 | a broken load runs a process that no chain holds, with its own user page on its caller's stack, and leaves every chain as it was |
| Processes.ParentKeepsFilesIff | student-distrib/process.c:142-166 | a child's halt leaves its parent's descriptors alone if and only if the parent had none from 2 to 7 |
| Processes.ParentLosesItsFile | student-distrib/process.c:142-166 | a shell that opens a file and executes a program has lost the file when the program halts |
| Processes.NestedCallsUnwind | student-distrib/process.c:142-163 | well-bracketed executes and halts in the viewed terminal restore slots, heads, running process, kernel stack and user page, to any depth the free slots allow |
| Processes.ChildReturnsToCallerIff | student-distrib/process.c:346-348 | a child returns to the process that executed it if and only if that process runs in the viewed terminal |
| Processes.ChildReturnsElsewhere | student-distrib/process.c:346-348 | after a switch to a second terminal and back, a program executed by the second shell returns to the first |
| Processes.Kernel.UserReachesOwnFrameOnly | student-distrib/page.c:121-127 | through the kernel's own page tables, `vidmap` apart, user code reaches the frame of the running process and no other memory; booting, execute, halt and switch keep the tables so |
| Processes.StacksAreApart | student-distrib/process.c:20-38 | the PCBs and kernel stacks of different processes are disjoint and inside the kernel page |
| Processes.Kernel.constructor | student-distrib/terminal.c:22-57 | booting empties the table and starts one shell |
| Processes.Kernel.SystemExecute | student-distrib/process.c:285-400 | execute in place is the step, or half of it when loading fails, or nothing |
| Processes.Kernel.SystemHalt | student-distrib/process.c:120-225 | halt in place is the step |
| Processes.Kernel.TerminalSwitch | student-distrib/terminal.c:92-103 | a switch starts a shell only in an unoccupied terminal, and only if the shell is found; one that fails to load costs a slot |
| Blinkers.TickAdvancesPhase | fish/blink.S:64-86 | one tick of the 16-bit countdown moves a blinker one step along its period |
| Blinkers.AddedBlinkerKeepsTime | fish/blink.S:49-138 | n ticks after its add a blinker that was not removed or retargeted is on exactly when n mod (on + off) is below on, whatever happens to the others |
| Blinkers.BlinkersKeepTime | fish/blink.S:49-299 | over every run from the empty list each blinker's status is that of its age, which a sync copies from its source |
| Blinkers.StayInStep | fish/blink.S:49-99 | blinkers with equal timing fields keep them equal through any run that removes and retargets neither |
| Blinkers.SyncedBlinkersStayInStep | fish/blink.S:267-275 | after a sync source and target agree on every later tick until either is removed or retargeted |
| Blinkers.SyncCopiesTiming | fish/blink.S:267-275 | a sync gives the target the source's four timing fields and changes no other blinker and no character |
| Blinkers.AddedIsFound | fish/blink.S:131-162 | an add that is taken is found first at its location, on, with its own characters and lengths, in front of all others |
| Blinkers.ListShowsItsLabels | fish/blink.S:105-299 | over every run the locations and characters of the list are those of the adds that were on the screen and among at most 2000, latest first, less the first match of each remove |
| BlinkPool.UsedAndFree | fish/fish.c:160-175 | the list accounts for every occupied slot, and used and free slots together are the pool |
| BlinkPool.FullIff | fish/fish.c:160-170 | the allocator finds no slot if and only if the list is as long as the pool |
| BlinkPool.AddKeepsPoolIff | fish/blink.S:131-162 | a node linked into a free slot leaves a list that matches the pool if and only if its location is not 0 |
| BlinkPool.AddAtZeroLosesTheList | fish/blink.S:131-162 | after an add at location 0 to any list with room, the next add that is taken lands in the same slot and links it to itself: a walk never leaves it, and every other node is lost |
| BlinkPool.RemoveLinks | fish/blink.S:206-222 | unlinking and clearing a node leaves the list without it and its slot free |
| BlinkPool.BlinkList.Add | fish/blink.S:105-184 | for any blinker and any state of the pool, add links the started blinker into the lowest free slot, or fails when it is off the screen or no slot is free; on a proper list and off location 0 it is cons |
| BlinkPool.BlinkList.FindHelper | fish/blink.S:351-379 | the walk ends and finds the first match |
| BlinkPool.BlinkList.Remove | fish/blink.S:187-237 | remove deletes the first match, or fails when there is none |
| BlinkPool.BlinkList.Sync | fish/blink.S:240-275 | sync copies the four timing fields between first matches, or fails when either is missing |
| BlinkPool.BlinkList.RtcTasklet | fish/blink.S:49-99 | one walk ticks every blinker of the list once and keeps the links |
| Frames.MergeIsExact | fish/fish.c:98-148 | the merge has one spot for each row and column at which the blank-padded pictures are not both blank, with that pair of characters, in reading order |
| Frames.FittingSpotsAreDistinct | fish/fish.c:125 | pictures that fit get distinct locations on the screen, none of them 0 |
| Frames.PicturesFillTheList | fish/fish.c:122-127 | for pictures that fit, every add is taken and the blink list is the merge, latest spot first, each blinker on for 15 ticks and off for 15 |
| Frames.AddRow | fish/fish.c:99-130 | the character loop reads both lines to their ends and adds the row's spots |
| Frames.AddFrames | fish/fish.c:78-148 | the program ends when both files have ended, for unequal lines and line counts, and issues one add for each row and column not blank in both pictures, in reading order, at (80 * row + col + 40) mod 65536 with the first picture's character on and the second's off |
| Arguments.SplitUndoesJoinIff | syscalls/ece391emulate.c:67-157 | splitting a joined text gives back the arguments if and only if each is a non-empty word without spaces or newlines |
| Arguments.TokensAreTheWords | syscalls/ece391emulate.c:88-98 | the arguments of a text are its words in order, whatever the spaces before, between and behind them, up to a newline where a word could start |
| Arguments.EveryTextIsLaid | syscalls/ece391emulate.c:88-98 | every text is such words between separators |
| Arguments.ProgramAndArguments | syscalls/ece391emulate.c:78-86 | the program is "./" and the command up to its first separator, and the arguments are those of the text behind that |
| Arguments.JoinAppends | syscalls/ece391emulate.c:143-151 | joining puts one space before each argument but the first |
| Arguments.ReexecutingKeepsArguments | syscalls/ece391emulate.c:67-157 | the text a program gets, executed again, gives the same arguments |
| Arguments.Tokenise | syscalls/ece391emulate.c:67-100 | a command of more than 1023 characters fails; for any other the in-place tokeniser stays in its buffers and leaves each argument NUL-terminated where its pointer says |
| Arguments.GetArgs | syscalls/ece391emulate.c:131-157 | getargs succeeds if and only if the joined arguments and a NUL fit, and then the buffer holds them; it writes behind the buffer, one NUL, if and only if an argument ends exactly with it |

## Left out

- Interrupt plumbing, port I/O, assembly linkage, descriptor tables, and the PIC and RTC registers.
- The saved `esp` and `ebp`, `iret` and TLB flushes: execute and halt are bookkeeping steps, and what runs
  next is the process they name.
- `next_process` and the timer handler: the timer interrupt is not enabled.
- `vidmap`, its page table entries and the writes user programs make through it.
- `parse_command`, `getargs` of the kernel, and the contents of executables: an execute is told whether its
  program is found and whether it loads.
- Terminals.Driver.TerminalSwitch: does not start the shell of an empty terminal; `Demultiplexer` has it as a
  separate change of the running process, and `Processes.Switch` models the start itself.
- Processes.Kernel.constructor: takes the first shell to be found and to load; the kernel has nothing to run
  otherwise.
- Processes.Kernel.SystemHalt: takes the replacement shell of a root process to be found and to load, where
  the code would go on with `cur_PID` -1, and leaves out the `vidmap` teardown.
- Processes.Kernel.UserReachesOwnFrameOnly: leaves out the page that `vidmap` shows to user code.
- Output that contains a backspace character: `putc` of it is modelled, but programs are taken not to print it.
- Terminals.Driver.TerminalRead: the memory behind the line buffer is taken to hold none of the terminals'
  other variables and to go on far enough for the read; the theorems about runs are about reads that stay in
  the buffer.
- FileSystem.StrLen: a name field without a NUL is taken to run on by at most one byte of the file type,
  which is all that the clipping can notice.
- Descriptors.Process.Read: reads of the terminal and the RTC are reported as device reads and not modelled there.
- Grep.DoOneFile: the "Check" lines printed for each turn of the loop, the file name before each report,
  the failures of open, read and close, and the loop of `main` over the directory.
- BlinkPool.BlinkList.RtcTasklet: the characters poked onto the screen by add, tick and sync, and
  `mp1_ioctl_find`, which changes nothing.
- Frames.AddFrames: failing opens and reads, and closing a file more than once.
- Number printing (`itoa`, `strrev`, `printf`), the demonstration programs and the kernel's own tests.
