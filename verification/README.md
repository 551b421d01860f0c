# Proofs about a small kernel

This project models, in Dafny, the parts of an early i386 kernel whose correctness
rests on machine detail, and proves what they are for:

* **The string library** of include/string.h (`Bytes`, `CStrings`, `Cpu`, `StringSets`,
  `StringSearch`, `Orders`, `StringCompare`, `BlockCopy`, `StringCopy`, `Tokenizer`,
  `Tokens`, `StrtokRuns`, `StringLibrary`, `LibraryMeaning`). Every routine is written out instruction by
  instruction on a machine with byte memory, flags and the direction flag, and proved
  against what it means for strings; then whole sequences of calls are proved about.
* **Calendar arithmetic** of kernel/mktime.c (`Mktime`): a closed formula against
  counting seconds, against the Gregorian calendar, and in 32-bit arithmetic.
* **Exception entry** of kernel/asm.s and mm/page.s (`TrapModel`, `TrapText`,
  `Traps`): a register and stack machine, the assembly as lists of instructions, and
  executions in which exceptions arrive between any two of them.
* **Terminal settings** of fs/tty_ioctl.c (`Termios`, `TtyIoctl`, `TtyRuns`) at the
  level of bytes, and runs of ioctl calls.
* **Pipes** of include/linux/fs.h and fs/pipe.c (`Pipe`, `PipeIo`): the masked ring as
  a FIFO, and the loops that use it.

`dafny verify dfyconfig.toml` checks everything.

## How to read the model

* Registers are local variables of a routine, because the inline assembly leaves nothing
  in them; memory, ZF, SF, the condition of `jl`, and DF live in `Cpu.Machine`. A memory
  address is an index; memory is shorter than 2^32 bytes, so that no address wraps.
  Parts that several routines have in common (`Measure`, `ScanSpan`, `CopyText`,
  `CopyCounted`) are methods of their own.
* The string instructions other than `rep movsb` require DF to be clear, so a routine
  that did not clear it first would not verify.
* A count is the 32-bit pattern that reaches ecx. `decl; js` goes round `Rounds(count)`
  times: not at all for a negative count, except that -2^31 passes for 2^31.
* A precondition of a routine that copies asks for room and for no more separation of
  source and destination than an upward copy needs.
* `strtok` is `Call`, a function from memory, `___strtok` and arguments to an `Outcome`;
  `Continue` is the list of outcomes of repeated calls.
* In `TrapModel` the stack is the sequence of words between its base and esp. An
  execution is the list of what was done: instructions with the values they read and the
  way they jumped, steps of C code (new values in any registers, words of the stack
  overwritten), and exceptions, each with the execution of its entry point. `Alone` is an
  execution with every exception left out. An exception within an instruction counts as
  one before it, since the instruction is executed again.
* `TrapText.Text` is the assembly of each entry point. `Traps.Legal` says that what is
  read is there, and that the execution of an entry point, its exceptions aside, is its
  text. That the jumps go the way the text says is proved, not asked.
* The C convention is a hypothesis on each function on its own (`KeepsConvention`): it
  returns on its return address with ebx, esi, edi, ebp and the segment registers as they
  were, and writes to no word of its callers but its arguments. That a function with its
  exceptions ends as it does alone is proved (`Traps.Processor.Run`).
* `CallsWithin` lists all calls that an execution leads to, `OwnCalls` those it makes
  itself. Addresses of functions are distinct numbers.
* In `TtyIoctl` and `PipeIo` what other processes do is a parameter: user memory may
  change between calls, and while a process sleeps others put and take bytes, as long as
  the ring lets them (`PipeIo.Nap`).
* fs/pipe.c is encoded in ISO 8859-1; its loops are cited by line in the rows on the
  macros of include/linux/fs.h that they use.

## What differs from the documentation and the standards

* String comparison is of signed chars, so a string can sort before its own prefix
  (`Orders.SignedOrderDeparts`; exactly when: `Orders.SignedIsUnsignedIff`).
* `strlen`, `strspn` and `strcspn` return a C int, which is the length exactly when that
  is below 2^31 (`Bytes.Int32IsIdentityIff`).
* `memcmp` of 0 bytes returns what old flags say (`StringCompare.Memcmp`).
* `strncat` writes one NUL more than it needs when it meets the end of src. The memory it
  leaves is that of section 7.21.3.2 exactly when the count ends the copy or that byte was
  NUL already (`StringCopy.StrncatIsStandardIff`, `StringCopy.StrncatWritesTooMuch`).
* `strtok` with an empty delimiter string returns NULL and forgets its position, where
  section 7.21.5.8 of ISO/IEC 9899:1999 has it return the rest of the string. It is as
  that section says exactly when the delimiter string is not empty or no text is left
  (`StrtokRuns.FirstRunUnlessSetEmpty`).
* `kernel_mktime` leaves the Gregorian calendar on 1 March 2100
  (`Mktime.GregorianUntil2100`), and its 32-bit sums overflow behind 03:14:07 on 19
  January 2038 (`Mktime.NoOverflowUntil2038`).
* device_not_available compares current with last_task_used_math before it loads ds, so
  it looks into the interrupted task's own memory (its segment begins at a multiple of
  0x4000000: kernel/fork.c, line 46). The right call is certain exactly when the
  interrupted data segment is the kernel's or the coprocessor is emulated
  (`Traps.RightTaskIff`); a task for which it goes wrong is `Traps.MisledExecution`.
* The debug exception calls the function of int3 (`TrapText.SameFrameFromBothStubs`).

## Model

| member | source | states |
|---|---|---|
| Cpu.Machine.RepneScasb | include/string.h:165-167 | stops one past the first byte equal to al or when ecx runs out, with ZF telling which; with ecx 0 nothing happens and ZF is what it was |
| Cpu.Machine.RepeCmpsb | include/string.h:249-251 | the length of the common prefix of two blocks as the registers show it, ZF and the signed comparison of the differing pair; with ecx 0 both flags survive; never reads past a known difference |
| Cpu.Machine.RepMovsb | include/string.h:339-340 | moves byte by byte upwards or downwards as the direction flag says, for every overlap |
| Cpu.Machine.RepStosb | include/string.h:47-48 | fills exactly ecx bytes |
| StringSets.Measure | include/string.h:166-169 | `repne scasb; notl; decl` from 0xffffffff gives the string length and sets ZF exactly when it is 0, for every string that fits in memory |
| StringSets.Strlen | include/string.h:263-273 | the length, as a C int |
| StringSets.ScanSet | include/string.h:174-177 | membership of al in the set; for an empty set ZF is left over from before |
| StringSets.ScanSpan | include/string.h:171-179 | the loop common to strspn, strcspn, strpbrk and strtok ends behind the longest prefix inside (outside) the set, empty sets included, and tells by which jump |
| Bytes.Int32IsIdentityIff | include/string.h:263-273 | a length returned as a C int is the length if and only if it is below 2^31 |
| StringSets.Strspn | include/string.h:161-183 | length of the longest prefix of bytes in the set |
| StringSets.Strcspn | include/string.h:185-207 | length of the longest prefix of bytes outside the set |
| StringSets.Strpbrk | include/string.h:209-234 | NULL exactly when the strcspn span reaches the terminator, else cs plus that span |
| CStrings.SpanIsLongest | include/string.h:161-234 | a prefix lies inside (outside) the set if and only if it is no longer than the span |
| StringSearch.Attempt | include/string.h:246-255 | one comparison at a haystack position: ZF iff the needle occurs there; the byte tested next is NUL iff it is the haystack's terminator; nothing beyond that is read; empty needle through the old ZF |
| StringSearch.Verdict | include/string.h:249-251 | the compared bytes agree for the whole needle if and only if the needle occurs at that position |
| StringSearch.NoRoomLater | include/string.h:254-256 | stopping on the terminator loses no later match: there is none |
| StringSearch.FirstMatch | include/string.h:236-261 | the least occurrence at or after a position, or that there is none |
| StringSearch.Strstr | include/string.h:236-261 | least occurrence or NULL when there is none, empty needle included; no haystack byte beyond the terminator is read; terminates |
| StringSearch.Strchr | include/string.h:128-143 | first occurrence, terminator included, or NULL |
| StringSearch.Strrchr | include/string.h:145-159 | last occurrence, terminator included, or NULL |
| StringSearch.Memchr | include/string.h:379-393 | first occurrence among count bytes or NULL; for count 0 NULL and the direction flag untouched |
| Orders.OrderAtDifference | include/string.h:93-101 | the first differing bytes, as signed chars, decide |
| Orders.OrderZeroIffEqual | include/string.h:88-105 | the order is 0 for equal sequences only |
| Orders.OrderAntisymmetric | include/string.h:88-105 | exchanging the operands negates the result |
| Orders.OrderTransitive | include/string.h:88-105 | transitive, strictly when one comparison is strict |
| Orders.SignedIsUnsignedIff | include/string.h:93-101 | the signed order agrees with section 7.21.4 of ISO/IEC 9899:1999 if and only if the first difference does not pair a 7-bit with an 8-bit byte |
| Orders.SevenBitOrdersAgree | include/string.h:88-126 | on 7-bit data both orders agree |
| Orders.SignedOrderDeparts | include/string.h:99-101 | a string with byte 255 sorts before "a" and before the empty string here, behind them in the standard |
| StringCompare.CompareStep | include/string.h:92-101 | what the next pair of bytes says about two strings equal so far |
| StringCompare.Strcmp | include/string.h:88-105 | the lexicographic order of the terminated strings, bytes signed |
| StringCompare.StrcmpIsTotalOrder | include/string.h:88-105 | strcmp is 0 exactly for equal strings, antisymmetric and transitive |
| StringCompare.Strncmp | include/string.h:107-126 | the same order of both strings cut off after count bytes, for every 32-bit count |
| StringCompare.StrncmpIsStrcmpOfCuts | include/string.h:107-126 | strncmp is strcmp of the strings truncated to count |
| StringCompare.BlockOrder | include/string.h:363-377 | the end of the common prefix of two blocks decides their order |
| StringCompare.Memcmp | include/string.h:363-377 | the order of two blocks for count at least 1; for count 0 whatever the incoming flags say |
| BlockCopy.MoveUpUndisturbed | include/string.h:336-344 | an upward copy that never reads its own output delivers the source bytes |
| BlockCopy.MoveUpOverlapping | include/string.h:336-344 | an upward copy onto its own source repeats the first dest - src bytes |
| BlockCopy.PhaseIsRemainder | include/string.h:336-344 | the position within the repeated block is the index modulo the distance |
| BlockCopy.MoveDownUndisturbed | include/string.h:355-359 | a downward copy with src <= dest delivers the source bytes for every overlap |
| BlockCopy.Memcpy | include/string.h:336-344 | source bytes, or the periodic fill when dest lies inside the source; nothing else changes |
| BlockCopy.Memmove | include/string.h:346-361 | the old source bytes for every overlap and length; nothing else changes; DF left set exactly when dest >= src |
| BlockCopy.Memset | include/string.h:395-403 | exactly count bytes are set |
| BlockCopy.MemcpyIsMemmoveIff | include/string.h:336-361 | memcpy and memmove leave the same memory if and only if the copy does not read its own output or the source repeats with that period |
| StringCopy.Strcpy | include/string.h:27-36 | the string and its terminator at dest, nothing else changed |
| StringCopy.Strcat | include/string.h:54-66 | the string and its terminator over the terminator of dest, nothing else changed |
| StringCopy.CopyCounted | include/string.h:41-46 | the counted loop of strncpy and strncat: what it copies, what is left in ecx, by which jump it ends |
| StringCopy.Strncpy | include/string.h:38-52 | exactly count bytes: the cut string padded with NULs; for every 32-bit count |
| StringCopy.Strncat | include/string.h:68-86 | the cut string and a NUL over the terminator of dest, and a second NUL behind one copied from src |
| StringCopy.Appended | include/string.h:75-82 | strncat writes min(strlen(src) + 2, count + 1) bytes |
| StringCopy.StrncatIsStandardIff | include/string.h:68-86 | strncat leaves the memory that section 7.21.3.2 of ISO/IEC 9899:1999 asks for if and only if the count ends the copy or the byte behind the written terminator is NUL already |
| StringCopy.StrncatWritesTooMuch | include/string.h:75-82 | a memory in which strncat overwrites a byte behind the string |
| StringCopy.StrcatText | include/string.h:54-66 | dest reads as the concatenation |
| StringCopy.StrncatText | include/string.h:68-86 | dest reads as itself followed by the first count bytes of src up to its NUL |
| StringCopy.StrncpyIsStringIff | include/string.h:38-52 | what strncpy leaves is terminated within count bytes if and only if count exceeds strlen(src), and then reads src |
| Tokenizer.EndToken | include/string.h:308-325 | labels 3 to 6: the token is ended by a NUL over its delimiter, or by the string's own terminator |
| Tokenizer.TokenizeFrom | include/string.h:296-325 | labels 2 to 6 for a non-empty set |
| Tokenizer.Strtok | include/string.h:277-334 | one call as a function of memory, ___strtok and the arguments, all null and empty cases included |
| StrtokRuns.CallStep | include/string.h:285-329 | any one call: NULL clears the state; at most the delimiter ending the token is overwritten; the rest is still a string and strictly shorter; an empty set returns NULL |
| StrtokRuns.StrtokRunInvariant | include/string.h:285-329 | after every call of any run, with delimiters changing at will: ___strtok is NULL or beyond the start and just past an overwritten byte of the string, the rest is the original text, all other bytes are original or overwritten with NUL |
| StrtokRuns.ConsumedPartStays | include/string.h:285-329 | what lies before the saved position is never touched again |
| StrtokRuns.TokenizeIsFirstRun | include/string.h:296-325 | one call delivers exactly the first maximal run of the remaining text |
| StrtokRuns.FirstRunUnlessSetEmpty | include/string.h:285-290 | what a call delivers is the first maximal run of the rest if and only if the set is not empty or no text is left |
| StrtokRuns.StrtokStartsTheRun | include/string.h:280-284 | strtok(s, ct) starts the run that strtok(NULL, ct) continues, whatever was saved before |
| StrtokRuns.StrtokFindsTheRuns | include/string.h:277-334 | call number q returns the start of maximal run number q of non-delimiters, NULL from then on (section 7.21.5.8 of ISO/IEC 9899:1999) |
| StrtokRuns.StrtokTokensStay | include/string.h:277-334 | every returned pointer still reads as its token after every later call |
| StrtokRuns.StrtokAll | include/string.h:277-334 | on the machine, strtok(s, ...) followed by any number of strtok(NULL, ...) with changing delimiters leaves the results, memory and ___strtok of the run |
| StrtokRuns.StrtokLoop | include/string.h:277-334 | on the machine, calling strtok n times with the same non-empty delimiters returns the starts of the first n maximal runs of the string, NULL for missing ones, and at the end each pointer reads as its token |
| Tokens.RunsExact | include/string.h:277-334 | the runs that are delivered are exactly the maximal runs of non-delimiters |
| Tokens.RunsOrdered | include/string.h:277-334 | they are delivered left to right, at least one delimiter apart |
| StringLibrary.InvokeAll | include/string.h:27-403 | any sequence of calls within their preconditions is a function of memory and ___strtok |
| StringLibrary.FlagsDoNotMatter | include/string.h:285-290 | results, memory and ___strtok do not depend on the flags at the start, direction flag included, although memmove may leave it set |
| LibraryMeaning.StrlenMeans | include/string.h:263-273 | the number of bytes before the NUL, as a C int |
| LibraryMeaning.StrspnMeans | include/string.h:161-183 | the number of leading bytes that are among those of the other string |
| LibraryMeaning.StrcspnMeans | include/string.h:185-207 | the number of leading bytes that are not |
| LibraryMeaning.StrpbrkMeans | include/string.h:209-234 | the address of the first byte that is among them, or 0 |
| LibraryMeaning.StrstrMeans | include/string.h:236-261 | the least address at which the other string stands |
| LibraryMeaning.StrstrMeansNone | include/string.h:236-261 | 0 when it stands nowhere |
| LibraryMeaning.StrchrMeans | include/string.h:128-143 | the least address of the byte, the terminator included |
| LibraryMeaning.StrrchrMeans | include/string.h:145-159 | the greatest |
| LibraryMeaning.MemchrMeans | include/string.h:379-393 | the least address within count bytes, or 0 |
| LibraryMeaning.StrcmpMeans | include/string.h:88-105 | -1 or 1 as the chars at the first difference compare |
| LibraryMeaning.StrncmpMeans | include/string.h:107-126 | the same if the count reaches the difference, 0 otherwise |
| LibraryMeaning.MemcmpMeans | include/string.h:363-377 | the same for blocks |
| LibraryMeaning.StrcpyMeans | include/string.h:27-36 | the bytes of the string and its NUL at dest, every other byte as before |
| LibraryMeaning.StrcatMeans | include/string.h:54-66 | the same at the end of the string at dest |
| LibraryMeaning.StrncpyMeans | include/string.h:38-52 | the first count bytes of the string, NULs up to count, every other byte as before |
| LibraryMeaning.StrncatMeans | include/string.h:68-86 | the first count bytes and one NUL, two when the string ends before, at the end of dest, every other byte as before |
| LibraryMeaning.MemcpyMeans | include/string.h:336-344 | the block at dest when dest does not lie inside the source |
| LibraryMeaning.MemcpyRepeats | include/string.h:336-344 | inside the source, the bytes between the two addresses again and again |
| LibraryMeaning.MemmoveMeans | include/string.h:346-361 | the block at dest, for every overlap |
| LibraryMeaning.MemsetMeans | include/string.h:395-403 | count bytes set, every other byte as before |
| Bytes.RoundsByNumber | include/string.h:41-43 | decl; js lets a loop go round once for each count up to 2^31, and not for other negative counts |
| Bytes.Int32OfNegative | include/string.h:41-43 | the patterns from 2^31 on are the negative C ints |
| Mktime.MktimeCountsSeconds | kernel/mktime.c:35-52 | the closed formula equals counting days month by month and year by year under the four-year rule |
| Mktime.MagicOffsets | kernel/mktime.c:41-46 | the offsets y+1 and y+2 count the leap years so far and test for a leap year |
| Mktime.MonthTable | kernel/mktime.c:19-33 | the leap-assuming table with its correction is the sum of the month lengths |
| Mktime.MonthLengthsByName | kernel/mktime.c:19-33 | the lengths of the twelve months |
| Mktime.LeapYears | kernel/mktime.c:41-46 | the leap years of the four-year rule and of the Gregorian calendar, as they are written |
| Mktime.MktimeNextSecond | kernel/mktime.c:35-52 | the epoch is 0 and the next second, with every carry, is one more |
| Mktime.MktimeIsOnto | kernel/mktime.c:35-52 | every natural is the value of a valid time |
| Mktime.MktimeIsMonotone | kernel/mktime.c:35-52 | values compare exactly as times do: strictly monotone and one to one |
| Mktime.GregorianUntil2100 | kernel/mktime.c:40-46 | for Gregorian times the result is the Gregorian second count if and only if the time is before 1 March 2100 |
| Mktime.MktimeIsPosixUntil2100 | kernel/mktime.c:35-52 | kernel_mktime is the formula of section 4.16 of POSIX.1-2017 XBD if and only if the time is before 1 March 2100 |
| Mktime.NoOverflowIff | kernel/mktime.c:37-51 | no intermediate 32-bit sum overflows if and only if the result is at most 2^31-1 |
| Mktime.IntermediatesInOrder | kernel/mktime.c:40-52 | each of the 15 values is what the code makes of those before it, and the last one is the result |
| Mktime.NoOverflowUntil2038 | kernel/mktime.c:37-51 | no intermediate 32-bit sum overflows if and only if the time is not after 03:14:07 on 19 January 2038 |
| Mktime.LastInstant | kernel/mktime.c:37-51 | the value 2^31-1 is 03:14:07 on 19 January 2038 |
| TrapModel.EmulationIsBitTwo | kernel/asm.s:78-79 | the jump to math_emulate depends on bit 2 of cr0 and on no other bit |
| TrapModel.TaskSwitchedIsBitThree | kernel/asm.s:80 | clts clears bit 3 of cr0 and no other bit |
| TrapModel.CarryIsBitZero | kernel/asm.s:78-79 | bt leaves its bit in bit 0 of eflags, and the other bits as they were |
| TrapModel.ZeroIsBitSix | kernel/asm.s:82-83 | cmpl and testl leave their verdict in bit 6 of eflags |
| TrapModel.ConventionMeans | kernel/asm.s:33-33 | what is asked of a called function: ebx, esi, edi, ebp and the segment registers, the return address on top, every word below its arguments |
| TrapModel.ConventionAllows | kernel/asm.s:33-33 | and what is not: any eax, ecx, edx and flags, any word in an argument |
| TrapModel.FaultFreeIsAlone | kernel/asm.s:13-157 | wherever exceptions arrive in an execution, its own steps are possible, and lead to the same registers, stack and calls, exactly as without them |
| TrapModel.AloneKeepsFrame | kernel/asm.s:33-33 | a function's own steps, as long as they stay in its frame, change neither the return address nor any word below its arguments |
| TrapText.PopsRestore | kernel/asm.s:35-45 | popping the saved words in the reverse order of the pushes gives back every register, popped or kept |
| TrapText.NoErrorCodeRestores | kernel/asm.s:15-45 | the instructions from no_error_code on call the handler on its frame with error code 0 and restore all registers and esp |
| TrapText.ErrorCodeRestores | kernel/asm.s:110-140 | those from error_code on do so with the pushed error code, which is gone at iret |
| TrapText.DeviceNotAvailableRestores | kernel/asm.s:67-94 | all three paths restore everything; the jumps go by what was read: with EM set the handler finds the frame of a direct entry, otherwise math_state_restore is called with ds on the kernel data segment unless the two words read are equal |
| TrapText.PageFaultRestores | mm/page.s:8-34 | restores everything; calls do_no_page or do_wp_page by bit 0 of the error code, with code and cr2 as arguments |
| TrapText.GatesMatch | kernel/asm.s:13-157 | every vector leads to an entry point that takes an error code off the stack if and only if the vector is 8 or one of 10 to 14 |
| TrapText.StubRestores | kernel/asm.s:13-157 | for every vector, with the error code that the processor pushes: the entry point makes the one call that it is to make, on the frame that the called function expects, and reaches iret with all registers as at its entry and esp on the return frame |
| TrapText.SameFrameFromBothStubs | kernel/asm.s:14-33 | every vector but 7 and 14 calls its function, on the kernel data segment; the frame is the argument list of do_int3: saved eip address (44 bytes up), the error code of vectors 8 and 10 to 13 or 0, then the registers at identical offsets |
| TrapText.SavedContext | kernel/asm.s:26-28 | that address points to eip, cs and eflags, and for user code to esp and ss behind them |
| TrapText.PageFaultCalls | mm/page.s:19-26 | do_wp_page is called when bit 0 of the error code is set and do_no_page when it is clear, with the code on top of the stack and cr2 below it, on the kernel data segment |
| TrapText.DeviceNotAvailableCalls | kernel/asm.s:75-89 | with bit 2 of cr0 set do_device_not_available is called on its frame; with it clear nothing when the two words read are equal, and math_state_restore with ds on the kernel data segment when they differ |
| Traps.InterruptedStubRestores | kernel/asm.s:13-157 | the same with any exceptions between any two instructions of the entry point |
| Traps.TheCallIsMade | kernel/asm.s:33-33 | the right function is called on the right frame, among the calls that the interrupting exceptions lead to |
| Traps.Processor.Run | kernel/asm.s:13-157 | an execution of handlers and entry points with exceptions arriving anywhere in it, nested to any depth, ends with exactly the registers and the stack that its own steps lead to with all exceptions left out |
| Traps.Processor.Invoke | kernel/asm.s:33-33 | a called function returns with the protected registers, esp and its callers' words as they were, because its own code keeps them and exceptions in it are invisible |
| Traps.Processor.Exception | kernel/asm.s:13-157 | an exception taken anywhere in kernel code, entry points included, returns with every register, the flags, the stack, eip and cs as they were |
| Traps.Processor.UserException | kernel/asm.s:13-157 | an exception in user mode returns with every register, the flags, eip, cs, and the user's ss and esp as they were |
| Traps.UninterruptedCall | kernel/asm.s:80-88 | which call device_not_available makes depends on the two words that the interrupted data segment shows at the addresses of current and last_task_used_math |
| Traps.RightTaskIff | kernel/asm.s:80-88 | that is the right call whatever the interrupted data segment holds if and only if it is the kernel data segment or the coprocessor is emulated |
| Traps.SkippedWhenMisled | kernel/asm.s:80-94 | when the interrupted segment shows two equal words and the coprocessor belongs to another task, TS is cleared and math_state_restore is not called though it is wanted |
| Traps.MisledExecution | kernel/asm.s:80-94 | there is such an execution: a task with data segment 0x17 and zeros at the two addresses loses the call |
| Traps.DeviceNotAvailableClearsTs | kernel/asm.s:75-94 | without emulation bit 3 of cr0 is cleared and nothing else changes, before math_state_restore runs |
| Traps.UninterruptedFaultAddress | mm/page.s:18-20 | without an exception in between, the address that the handler of a page fault is given is cr2 at the entry |
| TtyIoctl.Terminal.GetTermios | fs/tty_ioctl.c:28-36 | all 36 bytes of struct termios reach user memory |
| TtyIoctl.Terminal.SetTermios | fs/tty_ioctl.c:38-45 | all 36 bytes come from user memory |
| TtyIoctl.Terminal.GetTermio | fs/tty_ioctl.c:47-63 | user memory gets the 17 bytes that termio shows of termios and one arbitrary byte |
| TtyIoctl.Terminal.SetTermio | fs/tty_ioctl.c:65-80 | byte copies and little-endian half-word stores update exactly the shown bytes |
| TtyIoctl.Terminal.Ioctl | fs/tty_ioctl.c:82-165 | every command as a function of terminal state and user memory |
| TtyIoctl.DeviceIoctl | fs/tty_ioctl.c:82-91 | /dev/tty stands for the terminal of the process and panics exactly when it has none, with nothing changed; otherwise the selected terminal and no other handles the command |
| TtyRuns.SelectedByNumber | fs/tty_ioctl.c:85-91 | device numbers 0x500 to 0x5ff stand for the terminal of the process, every other one for that of its low byte |
| Termios.ViewMeans | include/termios.h:42-60 | the shown bytes are the low halves of the flag words, the line and the first NCC control characters |
| Termios.ViewThenUpdate | fs/tty_ioctl.c:47-80 | writing back what is seen changes nothing |
| Termios.UpdateThenView | fs/tty_ioctl.c:47-80 | what was written is seen |
| TtyRuns.GetThenSet | fs/tty_ioctl.c:47-80 | TCGETA then TCSETA of that buffer leave the whole terminal unchanged |
| TtyRuns.SetThenGet | fs/tty_ioctl.c:47-80 | TCSETA then TCGETA return the 17 meaningful bytes given |
| TtyRuns.SetTwice | fs/tty_ioctl.c:65-80 | a second TCSETA overrides the first |
| TtyRuns.SetAllThenGet | fs/tty_ioctl.c:38-63 | TCSETS then TCGETA give the low-16-bit truncation and the first NCC characters |
| TtyRuns.SetAllThenGetAll | fs/tty_ioctl.c:28-45 | TCSETS, TCSETSW or TCSETSF and then TCGETS give back the same 36 bytes and write no other |
| TtyRuns.OutputQueue | fs/tty_ioctl.c:141-144 | TIOCOUTQ stores how far the head of the write queue is ahead of its tail, modulo 1024, as four bytes, least significant first, and writes no other byte |
| TtyRuns.ProcessGroupBytes | fs/tty_ioctl.c:134-140 | a process group is the little-endian long at the address, for both commands |
| TtyRuns.FlushesByNumber | fs/tty_ioctl.c:95-133 | what each flush empties, and which settings flush the read queue first, by command number |
| TtyRuns.CommandNumbers | fs/tty_ioctl.c:92-165 | the numbers of the implemented commands; TCGETA shows the window at the address and writes 18 bytes |
| TtyRuns.ProcessGroupRoundTrip | fs/tty_ioctl.c:134-140 | a process group set is read back byte for byte |
| TtyRuns.RefusedCallsChangeNothing | fs/tty_ioctl.c:92-165 | -EINVAL exactly for unimplemented commands and unknown queues, and then neither terminal nor user memory changes |
| TtyRuns.QueuesAreOnlyFlushed | fs/tty_ioctl.c:11-16 | over any run tails never move and heads change only to meet their tails |
| TtyRuns.EachPartByItsOwnCommands | fs/tty_ioctl.c:92-165 | flushes empty the named queue and only it; process group and settings change only by their own commands |
| TtyRuns.HiddenSettingsStay | fs/tty_ioctl.c:65-80 | over any run without TCSETS, TCSETSW and TCSETSF the upper halves and control characters 8 to 16 stay |
| Pipe.SizeIs | include/linux/fs.h:106-107 | the masked difference also when the head has wrapped below the tail; empty iff it is 0 |
| Pipe.SizeSteps | include/linux/fs.h:106-110 | a push adds one, a pop takes one |
| Pipe.PushAppends | include/linux/fs.h:108-110 | storing at the head and incrementing it appends to the queue |
| Pipe.PopRemovesFirst | include/linux/fs.h:107-110 | loading at the tail and incrementing it removes the oldest byte |
| Pipe.RingRefinesFifo | include/linux/fs.h:104-110 | any interleaving is possible on the ring if and only if it is on a FIFO of capacity 4095 |
| Pipe.NothingLost | include/linux/fs.h:104-110 | whatever the interleaving, what was in and what came in is what went out and what remains, in order |
| Pipe.SizeCounts | include/linux/fs.h:104-110 | from an empty pipe: indices in 0..4095, size puts minus gets, at most 4095 |
| PipeIo.PipeInode.PutByte | include/linux/fs.h:104-110 | the store at the head and INC_PIPE append a byte to the queue |
| PipeIo.PipeInode.GetByte | include/linux/fs.h:104-110 | the load at the tail and INC_PIPE take the oldest byte |
| Pipe.PossibleRuns | include/linux/fs.h:104-110 | when everybody does what can be done in turn, the ring goes through a possible run, and through the whole of one that is possible |
| PipeIo.AwaitMeans | include/linux/fs.h:106-107 | the waits in lines 11-16 and 37-44 of fs/pipe.c: who waits ends with what he waits for, or with the other side gone, or asleep, and asleep only while the other side is there; who need not wait does not |
| PipeIo.WakeUps | include/linux/fs.h:106-107 | one byte that comes ends the wait of a reader and one that goes that of a writer, and either wait ends when the other side goes |
| PipeIo.WriteAllMeans | include/linux/fs.h:106-110 | the loop in lines 36-48 of fs/pipe.c: whatever happens meanwhile nothing is lost, and it is left early only with a full ring |
| PipeIo.WriteAllWithRoom | include/linux/fs.h:106-110 | with room for all bytes they are written without a wait |
| PipeIo.PipeInode.ReadPipe | include/linux/fs.h:104-110 | read_pipe, the two loops over these macros in lines 7-24 of fs/pipe.c: whatever others put and take while it sleeps, what was there followed by what came is what others took, then what is read, then what remains; short only when the ring is empty; asleep only while there are writers, and 0 from an empty pipe without them |
| PipeIo.PipeInode.WritePipe | include/linux/fs.h:104-110 | write_pipe, the loops over these macros in lines 26-50 of fs/pipe.c: whatever others put and take while it sleeps, what was there followed by all that came is what was taken followed by what remains, and the caller's bytes are in it in order; SIGPIPE and short counts only when the readers are gone |

## Left out

- TtyIoctl.DeviceIoctl: the source does not check the terminal number against the size of its table; the model asks for a number within it.
- TtyIoctl.Terminal.GetTermio: the padding byte is arbitrary; verify_area and bad user addresses are not modelled.
- Traps.Processor.Run: executions that return; a handler that ends the process never comes back to its stub.
- PipeIo.PipeInode.ReadPipe: wake_up and sleep_on as scheduling are not modelled, only what has changed on waking.
- Interrupt masking around a queue flush (cli, sti), and everything else that moves queue indices.
- wait_until_sent and send_break do nothing in the source.
- Compiler constraints and clobbers of the inline assembly; mistakes in them are not visible here.
- Of the flags the instructions of the entry points compute those that a jump tests; what else bt, cmpl, testl and addl do to eflags, and the clearing of TF and NT on entry, is not modelled.
- The stack may grow without end; an exception for want of kernel stack is not modelled.
- Partially overlapping misaligned stack words: the kernel stack is accessed in whole words.
- The C handlers behind the exception stubs (kernel/traps.c, mm/memory.c), which appear as arbitrary code.
- Character tables, wait-status macros, a.out offsets, system-call wrappers, get_super and the buffer cache: no part of these five components.
