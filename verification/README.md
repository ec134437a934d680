# A verified model of the kernel's heap, scheduler, printf, console and boot loader

The repository is a small x86 operating system. This project models its most intricate parts in Dafny and proves what
they are for. It has five parts.

* **The heap** (`miniheap.c`, `include/list.h`, `string.c`, the macros of `include/stdlib.h`). The code level works on an
  array of 32-bit words: list nodes, chunk headers and block headers are words at byte addresses, links are addresses
  (`Lists`, `FreeList`, `TrimList`, `Memory`, `Miniheap`). The meaning is told in bytes: free chunks, live blocks, trimmed
  pages (`Chunks`, `Arena`, `Trim`, `HeapRuns`). Every method of `Miniheap.MiniHeap` is proved to take the arena through
  the matching relation and to write only where it may; the relations are proved deterministic, invariant-preserving and,
  over whole runs, conservative and reversible. `HeapEffects` says what each call does in the caller's numbers.
* **The scheduler** (`task.c`, `x86/task.c`, `x86/task_asm.S`). `Scheduler` is the state machine with its invariant,
  `SchedulerRuns` is about whole runs: bounded waiting, what a task finds when it gets the processor back, where parked
  contexts come from; `SchedulerEffects` says outright what each call does. `Tasks` is the code: task structures, run queue and stacks are words of memory, the context switch
  pushes and pops registers, and every method is proved to realise its transition of the state machine and to write only the
  scheduler's own words and the frame on the caller's stack.
* **printf** (`printf.c`). `Numbers` has the digit printers, `Format` what a format denotes (as text, and as the sequence of
  strings handed to the output function), `Directives` what a directive's characters mean, `Printed` what each conversion prints in
  terms of the argument words, `Output` the two output functions, `Printf` the engine, proved to emit exactly
  that sequence up to the first refused string whatever the output function answers, `Sprintf` the users `vsnprintf`,
  `vsprintf` and `_vprintf`.
* **The console** (`hw/vga.c`, `console.c`). `Vga` proves video memory to be the last 25 rows of a terminal that never
  loses a row, including the overlapping byte copy that scrolls; `Consoles` adds the bounded write with newline expansion.
* **The floppy** (`makeflop.c`, `load_floppy` in `bootblock.S`). `Floppy` has the image writer and the sector loader, and
  proves that loading undoes writing: after `BootImage` the payload is in memory, zero-filled to the end of its last sector.

Some things in the code are worth knowing, and are proved rather than smoothed over:

* A left-justified number is printed without its sign: `Format.DirectiveReadsBack` shows that a printed decimal reads back
  as its argument if and only if it is not a negative number under left justification; `Format.LeftLosesSign` is an instance.
* `vsnprintf` with a length of 0 clears the byte in front of the buffer (`Sprintf.Vsnprintf`).
* The console stops each string at a NUL while the buffer does not: `Sprintf.SinksAgree` shows that the two get the same
  characters if and only if no `%c` that is reached has an argument of low byte 0; `Sprintf.NulCharacter` is an instance.
* Sizes near 2^32 wrap in the allocator: `Miniheap.AdjustWraps` has requests that look for 12 bytes and for none at all,
  `Miniheap.AdjustExact` says exactly when the size is right.
* Without padding, what the floppy held before can end up behind the payload in memory: `Floppy.ZeroFillExactly` says when, `Floppy.UnpaddedByte` is
  an instance.

Comments in `printf.c` and `console.h` suggest plain C behaviour; where the code differs (digits after `.` add to the width,
the `0x` prefix is outside the width) the model follows the code.

## Model

| member | source | states |
|---|---|---|
| Lists.ListInitialize | include/list.h:43-45 | the sentinel alone is the ring of the empty sequence; nothing else is written |
| Lists.ListAddHead | include/list.h:59-66 | linking after the entry at position k inserts the item into the sequence at k, writing only the four link words |
| Lists.ListAddTail | include/list.h:68-75 | linking before an entry is the matching insertion |
| Lists.ListDelete | include/list.h:77-81 | unlinking node k removes element k and clears the node's links |
| Lists.ListRemoveHead | include/list.h:83-91 | the first element, with the rest as the new list, or NULL exactly for the empty list |
| Lists.ListPrev | include/list.h:159-165 | the element before, NULL exactly at the first |
| Lists.ListNext | include/list.h:197-203 | the element after, NULL exactly at the last |
| Lists.ListLength | include/list.h:236-237 | iteration visits every element once, in order, and counts them |
| Lists.InsertLinks | include/list.h:59-73 | the four stores of an insertion keep prev and next mutual inverses all around the ring |
| Lists.RemoveLinks | include/list.h:77-81 | the stores of a deletion keep them mutual inverses around the smaller ring |
| Lists.RingIsUnique | include/list.h:35-38 | memory determines the list: one ring holds one sequence |
| Rounding.RoundUpLeast | include/stdlib.h:34 | masking after adding b-1 gives the least multiple of a power of two that is not below a, in 32 bits |
| Rounding.RoundDownGreatest | include/stdlib.h:35 | the greatest multiple not above a |
| Rounding.PowerTest | miniheap.c:219-221 | `a & (a - 1)` is zero exactly for powers of two |
| Memory.Memcpy | string.c:28-37 | a forward byte copy, with where each byte came from when the areas overlap; no word clear of the destination changes |
| Memory.OriginForward | string.c:28-37 | in an overlapping copy a byte comes from its own source, or repeats what was copied before |
| Memory.PutByteLaw | string.c:28-37 | storing one byte of a word leaves its other three |
| Chunks.CanonicalUnique | miniheap.c:162-188 | an address-sorted list of chunks that never touch is the only such list with its bytes |
| Chunks.JoinIsTheOnly | miniheap.c:162-188 | merging a chunk with the neighbours it touches is the only canonical list of the united bytes |
| Chunks.JoinBytes | miniheap.c:162-188 | merging neither loses nor invents a byte |
| Chunks.JoinSum | miniheap.c:146 | merging adds exactly the chunk's length to the total |
| FreeList.FindNext | miniheap.c:149-157 | the walk stops at the first chunk above, or at the sentinel |
| FreeList.MergeLeft | miniheap.c:164-177 | the chunk is absorbed by its predecessor exactly when they touch |
| FreeList.MergeRight | miniheap.c:180-188 | and absorbs its successor exactly when they touch; the sentinel is never merged |
| FreeList.RightDecision | miniheap.c:180-181 | the address test against the sentinel read as a chunk is never true |
| FreeList.InsertChunk | miniheap.c:134-193 | the list becomes the canonical list of the united bytes; writes stay on the sentinel and in free bytes |
| FreeList.FindFit | miniheap.c:256-260 | the first chunk that is large enough, or the sentinel when there is none |
| FreeList.Carve | miniheap.c:263-280 | the chunk leaves the list and what is behind the allocation takes its place, if it holds a header |
| Miniheap.MiniHeap.Init | miniheap.c:537-556 | the heap starts as one chunk covering the range, or none for an empty range |
| Miniheap.MiniHeap.InsertFreeChunk | miniheap.c:134-208 | list, bytes and `remaining` after a chunk is given to the list |
| Miniheap.MiniHeap.Alloc | miniheap.c:210-335 | takes the arena through AllocStep; the two header words before the returned address hold start and length of the block; writes only in bytes that were free and the sentinel; every live block keeps its words |
| Miniheap.MiniHeap.Take | miniheap.c:261-318 | the first fit becomes a live block with its header, and the heap stays valid |
| Miniheap.MiniHeap.Free | miniheap.c:359-395 | takes the arena through FreeStep; the other live blocks keep their words |
| Miniheap.MiniHeap.Realloc | miniheap.c:337-357 | takes the arena through ReallocStep; size 0 frees the block and returns NULL, success puts one block of the new size in its place; the bytes the old block had room for arrive in the new one; failure changes no block |
| Miniheap.MiniHeap.Trim | miniheap.c:397-487 | takes the arena through TrimStep; no live block changes |
| Miniheap.MiniHeap.GetStats | miniheap.c:489-510 | heap_free is `remaining` is the sum of the free lengths; heap_max_chunk is the largest of them |
| HeapEffects.AllocBlock | miniheap.c:224-304 | the block holds header, payload and slack, at most 3 + 12 bytes more, from the lowest chunk that is large enough; where the pointer lies; what is split off is longer than 12 bytes |
| HeapEffects.AllocFailsWhen | miniheap.c:219-260 | NULL exactly for an alignment that is no power of two, or when no chunk holds header, payload and slack |
| HeapEffects.NeedExact | miniheap.c:224-247 | the room looked for is the payload rounded up to words, and the slack |
| HeapEffects.ReallocEffect | miniheap.c:337-357 | from NULL it allocates, to size 0 it frees, otherwise the block moves to a new pointer of that size, or nothing changes and no chunk was large enough |
| HeapEffects.TrimEffect | miniheap.c:405-482 | exactly the free bytes in pages that can go are taken, and no block is touched |
| HeapEffects.TrimmableNumbers | miniheap.c:425-453 | which pages can go: whole ones that leave nothing or 12 bytes on either side |
| HeapEffects.FreeListShape | miniheap.c:134-193 | chunks are words, at least 12 bytes, in the heap, in order and never touching |
| Miniheap.AdjustExact | miniheap.c:224-247 | the 32-bit size computation gives the room really needed exactly when that fits in 32 bits |
| Miniheap.AdjustWraps | miniheap.c:224-247 | two sizes whose computation wraps: one looks for 12 bytes, the other for 0 |
| Miniheap.AlignmentTest | miniheap.c:219-221 | the mask test accepts exactly 0 and the powers of two |
| Miniheap.PlacePointer | miniheap.c:290-295 | the pointer is past the header and the first multiple of max(16, alignment) there |
| Arena.PlaceBounds | miniheap.c:232-295 | header and requested bytes lie in the block, whatever the alignment |
| Arena.AllocInv | miniheap.c:256-318 | allocation keeps the heap invariant |
| Arena.FreeInv | miniheap.c:359-390 | freeing a live block keeps the heap invariant |
| Arena.ReallocInv | miniheap.c:337-357 | reallocating keeps the heap invariant in all its cases |
| Arena.FreeIsJoin | miniheap.c:162-188 | freeing has one outcome: the block joined with the neighbours it touches |
| Arena.InitialInv | miniheap.c:537-556 | the initial heap satisfies the invariant |
| Arena.MaxLenBounds | miniheap.c:499-505 | the largest chunk decides whether anything fits |
| Trim.TrimIsLargest | miniheap.c:412-453 | the pages trimmed from a chunk are the largest page range whose leftovers are empty or hold a header |
| Trim.TrimInv | miniheap.c:397-487 | trimming keeps the heap invariant |
| Trim.TrimTwice | miniheap.c:405-484 | a second trim changes nothing |
| Trim.TrimBytes | miniheap.c:455-482 | the bytes left free and the bytes given back are the bytes that were free, without overlap |
| Trim.TrimSum | miniheap.c:482 | the lengths of leftovers and pages add up |
| TrimList.FindPages | miniheap.c:413-454 | the retry loop ends, at exactly that largest page range |
| TrimList.CutPages | miniheap.c:425-474 | the chunk is replaced in the list by its leftovers, in all four cases |
| TrimList.TrimAll | miniheap.c:405-484 | the safe iteration looks at each original chunk once, in order, and never at a piece it inserts; the list becomes that of all leftovers |
| HeapRuns.RunInv | miniheap.c:134-487 | every interleaving of alloc, free, realloc and trim keeps the invariant |
| HeapRuns.Reachable | miniheap.c:134-510 | in every reachable state the free list is the unique coalesced form of the free bytes, each byte has exactly one owner, and the sizes add up to the arena |
| HeapRuns.AllocFailsExactly | miniheap.c:219-260 | NULL exactly if the alignment is no power of two or the adjusted size exceeds the largest chunk |
| HeapRuns.AllocGives | miniheap.c:256-318 | alignment, room, freshness and first fit of what a successful call returns, and the bytes it takes |
| HeapRuns.AllocIsDetermined | miniheap.c:256-318 | the relation fixes pointer and heap |
| HeapRuns.AllocThenFree | miniheap.c:359-390 | freeing what was just allocated restores the heap |
| HeapRuns.FreesBytes | miniheap.c:359-390 | what any sequence of frees does, in bytes |
| HeapRuns.FreesCommute | miniheap.c:359-390 | the order of frees does not matter |
| HeapRuns.EverythingFreed | miniheap.c:134-193 | with no trim, once everything is freed the heap is the one chunk it began as |
| SchedulerEffects.IdleStarts | task.c:41-63 | after task_init, one reschedule and one exit_critical_section leave the idle task RUNNING at count 0 with interrupts on |
| SchedulerEffects.CriticalEffect | task.c:162-172 | counts by one, interrupts off inside, on when the outermost section is left |
| SchedulerEffects.CreateEffect | task.c:93-111 | INITIAL at count 1, parked at the trampoline, not queued |
| SchedulerEffects.StartEffect | task.c:114-128 | a started task is READY at the head of the queue; any other is refused without effect |
| SchedulerEffects.YieldEffect | task.c:131-160 | the head of the queue takes over, a running caller waits READY at the tail |
| SchedulerEffects.AloneEffect | task.c:143-159 | with nobody queued the caller goes on unchanged |
| SchedulerEffects.DeathEffect | task.c:79-91 | the caller is DEAD and nowhere queued or parked; the head or the idle task takes over |
| Scheduler.DoInv | task.c:93-172 | every call keeps the scheduler's invariant |
| Scheduler.RescheduleInv | task.c:131-160 | rescheduling keeps it, whoever is picked |
| Scheduler.RescheduleOther | task.c:131-160 | the exact state after the processor is handed over: states, counts, queue, interrupts, parked contexts, registers |
| Scheduler.RescheduleSame | task.c:137-159 | and when the caller keeps it |
| Scheduler.ExitEffect | task.c:79-91 | the exact state after a task died |
| Scheduler.FallbackIsFirst | task.c:145-148 | the idle fallback is taken only by an idle task that was never dispatched and is not queued |
| Scheduler.StartSteps | task.c:114-128 | the statements of task_start add up to its transition |
| SchedulerRuns.RunInv | task.c:93-172 | every legal run keeps the invariant |
| SchedulerRuns.Reachable | task.c:54-172 | queued once exactly when READY, only the current task RUNNING, interrupts on exactly at count 0, every waiting task at count 1 or more |
| SchedulerRuns.BoundedWaiting | task.c:114-152 | a queued task is at index k + starts - picks until it is picked, at the call that makes this negative |
| SchedulerRuns.NoStarts | task.c:137-152 | with no starts, it is current exactly at pick number k + 1 |
| SchedulerRuns.WaitingKeeps | task.c:131-172 | a waiting task's count and context stay as they are until it is dispatched with them |
| SchedulerRuns.RescheduleReturns | task.c:131-160 | a task that reschedules gets back its registers, count and interrupt state |
| SchedulerRuns.FirstDispatch | task.c:66-77 | a new task starts at the trampoline with cleared registers on an empty stack, with interrupts on |
| SchedulerRuns.ParkedHistory | x86/task_asm.S:29-42 | every parked context is one its task ran with, or the one it was created with |
| SchedulerRuns.IdleFrameUnused | task.c:60-62 | the frame created for the idle task is never consumed |
| SchedulerRuns.DeadStaysDead | task.c:84-87 | a dead task never runs and is never queued again |
| SchedulerRuns.FallbackOnce | task.c:145-148 | in a whole run the fallback fires at most once, when idle is not queued |
| Tasks.Cpu.AsmSwitch | x86/task_asm.S:29-42 | the caller's registers become a frame below its stack pointer, the new frame becomes the registers |
| Tasks.Cpu.SaveFrame | x86/task_asm.S:30-33 | the pushes leave a frame of the current context |
| Tasks.Cpu.RestoreFrame | x86/task_asm.S:37-42 | the pops and the return bring a framed context back |
| Tasks.InitTask | task.c:93-111 | a cleared structure, its fields, and a first frame at the top of the stack |
| Tasks.InitFrame | x86/task.c:29-38 | that frame holds zeroed registers and the entry point |
| Tasks.Kernel.Init | task.c:55-63 | memory represents the initial scheduler state; the idle structure has state 0, count 1, no entry and its first frame at the top of its stack |
| Tasks.Kernel.EnterCritical | task.c:162-166 | the count word goes up, no other word changes, and interrupts go off at 1; memory then represents the state after the abstract call |
| Tasks.Kernel.ExitCritical | task.c:168-172 | the count word goes down, no other word changes, and interrupts come on at 0; memory represents the abstract result |
| Tasks.Kernel.Create | task.c:93-111 | in a structure and stack nobody uses, memory gains an INITIAL task at count 1 parked at the trampoline, with its entry point and argument; only its structure and one frame are written |
| Tasks.Kernel.EntryPoint | task.c:72-73 | what the trampoline reads is the function and argument the current task was created with |
| Tasks.PrivateKept | task.c:131-172 | no task's stack, entry point or argument is written by the scheduler, but for the frame on the caller's stack |
| Tasks.EntriesKept | task.c:131-172 | entry points and arguments survive every scheduler write |
| Tasks.Kernel.Start | task.c:114-128 | an INITIAL task becomes READY at the head of the queue in memory; -1 and no change exactly for any other |
| Tasks.Kernel.PickAndSwitch | task.c:134-157 | requeueing, picking with the idle fallback and swapping stacks in memory compose to the abstract steps |
| Tasks.Kernel.SwitchFrom | x86/task.c:40-44 | the swap on memory is the abstract switch |
| Tasks.Kernel.Yield | task.c:131-160 | task_reschedule on memory and registers is the transition; it writes links, states, counts, saved stack pointers and the caller's frame, so every waiting task keeps all of its stack |
| Tasks.Kernel.Exit | task.c:79-91 | task_exit leaves the caller DEAD and unqueued in memory and another task running, under the same frame condition |
| Tasks.TerritoryWrite | task.c:33-37 | writes to what one task owns leave the run queue and every other task intact |
| Tasks.SwitchImage | x86/task_asm.S:29-42 | after the stack swap memory represents the switched state |
| Numbers.LonglongToString | printf.c:118-150 | the buffer ends with the numeral of the magnitude and a NUL; the sign character; no index outside |
| Numbers.LonglongToHexstring | printf.c:155-168 | the same for hexadecimal |
| Numbers.NumeralParses | printf.c:130-137 | numerals read back, without a redundant leading zero |
| Numbers.NumeralUnique | printf.c:130-137 | the numeral is the only such digit string |
| Numbers.SixtyFourBits | printf.c:411 | 64-bit values need at most 20 decimal and 16 hexadecimal digits |
| Numbers.SignedReads | printf.c:122-147 | sign and digits determine a signed value, the most negative one included |
| Format.PiecesSpellText | printf.c:416-635 | the strings handed out concatenate to the text the format denotes |
| Directives.ScanMeaning | printf.c:440-504 | a directive in its own characters: each flag set exactly by its letter, long types by two, the width its digits as one number modulo 2^32 |
| Printed.UnsignedReads | printf.c:518-528 | `%u` reads back in decimal as the argument words its letters ask for |
| Printed.DecimalReads | printf.c:505-517 | `%d` and `%i` likewise, signed, with the sign that belongs there |
| Printed.SignShown | printf.c:139-147 | without a width the sign comes first: minus, plus, blank, or a digit |
| Printed.HexReads | printf.c:529-550 | `%x`, `%X` and `%p`: prefix, case of the digits, and the argument in base 16 |
| Printed.UnsignedWords | printf.c:519-526 | which argument words an unsigned conversion fetches |
| Printed.SignedWords | printf.c:507-514 | the same for a signed one, in two's complement |
| Printed.FieldShape | printf.c:598-633 | a field character by character: blanks or zeros, and where the sign is |
| Printed.StringDirective | printf.c:465-471 | `%s` prints its string or `<null>`, padded with blanks only |
| Printed.CharacterDirectives | printf.c:458-464 | `%%`, `%c`, `%n` and unknown conversions |
| Printed.ArgumentWords | printf.c:461-566 | how many argument words each directive takes |
| Printed.CountDirective | printf.c:551-566 | the width and value of the store of `%n` |
| Printed.PlainText | printf.c:422-433 | a format without directives is its own text |
| Printed.FirstDirective | printf.c:422-445 | text up to the first directive, the directive, the rest; an unfinished directive prints nothing |
| Format.TextNul | printf.c:461-464 | the text has a NUL if and only if a `%c` that is reached has an argument of low byte 0 |
| Format.DirectiveReadsBack | printf.c:505-517 | a printed decimal reads back as its argument if and only if it is not negative and left-justified |
| Format.DecimalReadsBack | printf.c:598-633 | the same for a field, for all flags and widths |
| Format.LeftLosesSign | printf.c:598-606 | `%-4d` of -5 prints "5" and three blanks |
| Format.FieldLength | printf.c:598-633 | a right-justified field has the larger of the width and of sign plus digits |
| Format.RightReads | printf.c:607-633 | sign before zeros and after blanks: both read back |
| Format.CountIsLength | printf.c:413 | counting answers counts characters if the output function takes all |
| Output.Sink.VsnprintfOutput | printf.c:70-84 | what fits of all output is in the buffer, nothing else in memory changed, the whole length is answered |
| Output.Sink.ConsoleOutput | console.c:33-44 | the terminal was fed each string up to its NUL, whose length is answered |
| Output.Sink.Put | printf.c:413 | one call of the output function extends the log of what was put out |
| Output.ClipStops | console.c:35 | the character after the string, read before the count is compared, does not matter |
| Printf.Strlen | string.c:50-58 | the index of the first NUL |
| Printf.ScanDirective | printf.c:440-504 | flags, width, conversion and end of a directive |
| Printf.Modify | printf.c:472-504 | which flags a modifier sets, and that anything else ends the directive |
| Printf.Digits | printf.c:505-549 | argument fetch, flags, sign, prefix and digits of a numeric conversion |
| Printf.Pad | printf.c:604-606 | the padding loop emits width less n copies, or stops at the first refusal |
| Printf.PutField | printf.c:595-633 | a field is emitted as denoted, or up to the first refusal |
| Printf.PutDirective | printf.c:447-592 | so is every directive, consuming the argument words it should |
| Printf.PutCount | printf.c:551-566 | `%n` stores the count in the width its modifiers ask for |
| Printf.PrintfEngine | printf.c:399-642 | the whole format is emitted piece by piece and counted modulo 2^32, or up to the first refused piece, whose answer is returned, for any output function |
| Printf.EmittedThen | printf.c:413 | emitting is compositional, refusals included |
| Printf.FailedStops | printf.c:640-641 | a refusal is final |
| Sprintf.Vsnprintf | printf.c:86-101 | exactly the first len - 1 characters and a NUL, nothing else, the untruncated length; for length 0 the byte before is cleared |
| Sprintf.Vsprintf | printf.c:60-62 | the whole text and its NUL, in a buffer of unknown size that is large enough, and its length |
| Sprintf.StringBytes | printf.c:95-99 | which bytes a stored string and its NUL take; all others stay |
| Sprintf.IntOfSize | printf.c:641 | the returned int is congruent to the count |
| Sprintf.Vprintf | printf.c:655-657 | the terminal is fed the text without NULs, newlines expanded; its length is returned |
| Sprintf.StoresTell | printf.c:551-566 | `%n` stores the count of what was put out before it, whatever the output function |
| Sprintf.PercentN | printf.c:551-566 | when every character counts, that is the length of a prefix of the text |
| Sprintf.ClippedIsStripped | console.c:35 | cutting each string at its NUL removes exactly the NULs from the text |
| Sprintf.StripOne | console.c:35 | only NULs are removed |
| Sprintf.SinksAgree | printf.c:70-84 | buffer and console get the same characters if and only if no `%c` that is reached has an argument of low byte 0 |
| Sprintf.NulCharacter | printf.c:461-464 | `%c` of 0 puts one NUL into the buffer and nothing on the console |
| Vga.Console.constructor | hw/vga.c:40-50 | the cleared screen shows a terminal with one empty row |
| Vga.Console.Scrup | hw/vga.c:54-59 | the overlapping copy moves all 24 rows intact and the last row is blank |
| Vga.Console.Putchar | hw/vga.c:61-87 | the screen stays the last 25 rows of the terminal, which gets the character; column below 80, line below 25 |
| Vga.WindowMeaning | hw/vga.c:33-38 | every cell of video memory is the terminal's, row by row from the 25th last; column below 80, line below 25 |
| Vga.TabEffect | hw/vga.c:69-82 | a tab goes to the next multiple of four, or to a new row |
| Vga.GlyphEffect | hw/vga.c:72-82 | a printable character changes its own cell, white on black, and wraps at column 80; any other does nothing |
| Vga.LineEffect | hw/vga.c:63-68 | newline begins a blank row and keeps the column, carriage return keeps the rows |
| Vga.ScrolledShown | hw/vga.c:54-59 | the scrolled screen shows the rows one further down |
| Vga.StampShown | hw/vga.c:73-76 | a glyph changes its own cell only |
| Vga.FeedConcat | hw/vga.c:61-87 | feeding is compositional |
| Vga.TabStop | hw/vga.c:70 | the rounded column is the next multiple of four |
| Consoles.ConsoleWrite | console.c:33-44 | stops at the first NUL or the limit, and the terminal was fed the expanded prefix |
| Consoles.ExpandOff | console.c:37-39 | without `crlf` nothing is added |
| Consoles.WritesConcat | console.c:33-44 | two writes are one write of the concatenation |
| Consoles.PrintedFills | hw/vga.c:73-82 | printable text fills rows of 80 in order, whatever its length |
| Consoles.PrintedLine | console.c:36-40 | a line and its newline leave the rows above alone, take the rows needed and end on a fresh row |
| Floppy.Makeflop | makeflop.c:115-171 | the file is the patched boot block, the payload and the zero fill |
| Floppy.ImageBytes | makeflop.c:115-171 | the image byte by byte: low and high byte of the sector count at 2 and 3, boot block, payload, zeros |
| Floppy.FillLeast | makeflop.c:156-160 | the fill is the smallest that makes the length a multiple of the padding |
| Floppy.LoadFloppy | bootblock.S:203-245 | consecutive sectors from the given one arrive at the destination, exactly as many as asked for, no read leaving its track |
| Floppy.NextTrack | bootblock.S:237-241 | the head and cylinder step leads to the sector after the last one of the track |
| Floppy.PlaceUnique | bootblock.S:216-219 | cylinder, head and sector name each sector once |
| Floppy.ReadCount | bootblock.S:207-214 | to the end of the track, or what is left |
| Floppy.MoveString | bootblock.S:230-234 | 4 * cx bytes arrive unchanged and no other byte changes |
| Floppy.Boot | bootblock.S:89-104 | the boot block completes itself, finds its patched count and loads that many sectors to 1 MB |
| Floppy.LoadedPart | makeflop.c:115-171 | for every payload that fits, the count patched in reads back and the sectors hold the payload, zero-filled if padded to sectors |
| Floppy.ZeroFillExactly | makeflop.c:156-171 | on any disk the rest of the last sector is zero exactly if the image covers it, which without padding it may not |
| Floppy.UnpaddedByte | makeflop.c:156-171 | one byte without padding is such a case |
| Floppy.BootImage | bootblock.S:89-104 | once an image was written to a disk, booting brings the payload to 1 MB, zero-filled to its last sector if padded to sectors |

## Left out

- Miniheap.MiniHeap.Alloc: requires that the adjusted size fits in 32 bits, which is exactly when the code's size is right
  (`Miniheap.AdjustExact`); a size that wraps to 0 hands out a chunk that stays in the free list, so nothing is promised there. Growing the heap is not modelled: the page allocator always returns NULL, so `heap_grow` fails.
- Miniheap.MiniHeap.GetStats: the low watermark starts at 0 and is compared unsigned, so it stays 0; that is all that is stated.
- Miniheap.MiniHeap.Realloc: copies as many bytes as the new size asks for, so beyond the old block's room the new block holds
  whatever was behind the old one; nothing is stated of those bytes, and a copy that takes place must not run past the end of memory.
- Miniheap.MiniHeap.Free: takes live pointers and NULL; double frees, foreign pointers and overwritten headers are the caller's.
- Miniheap.MiniHeap.Init: the range consists of words, does not begin at address 0 and ends at least a page below 2^32.
- Miniheap.MiniHeap.Trim: `remaining` is reduced once for all chunks instead of chunk by chunk; `page_free` does nothing.
- Debug fill patterns, magic numbers, the heap dump, automatic trimming and the mutex stubs: compiled out or without effect.
- `list_remove_tail`, the peeking and the wrapping list queries: variants of what is modelled.
- Scheduler.DoInv: the critical-section count is an unbounded integer, calls are atomic with respect to interrupt handlers,
  which do not schedule, and the caller keeps its obligations: it leaves only sections it entered, does not reuse a task that is in
  use, and the idle task neither exits nor is started again.
- Scheduler.RescheduleOther: a reschedule is told up to the point where the picked task has left its own critical section,
  in task_reschedule or in the trampoline.
- Tasks.Kernel.Create: the structure and the stack may overlap those of no task that was not released (`Tasks.Kernel.Release`);
  a task can be released when it is dead or was never started.
- Tasks.Kernel.Yield: requires room for one frame on the caller's stack, which the code takes for granted.
- Tasks.Kernel.Compute: a running task changes registers and its own stack only; the trampoline's call of the entry point and
  `task_become_idle` are such tasks' code and not modelled further. Task names are not stored by the code.
- Printf.PrintfEngine: strings are shorter than 2^31, arguments and strings are read as they were at the call (stores of `%n` are
  recorded in order, not written into them), the printed characters are bytes.
- Sprintf.Vsnprintf: what is stored must fit into memory, and addresses are 32 bits wide. The variadic wrappers only collect arguments.
- Floating-point conversions: compiled out.
- Vga.Console.Putchar: programming the cursor through ports, and clearing with `clear` false, are not modelled.
- Floppy.Makeflop: option parsing, file errors and the VESA bytes are not modelled; the payload's size is what stat reported.
- Floppy.LoadFloppy: successful reads only. The retry path jumps back after its counters were overwritten. At least one and fewer
  than 2^15 sectors: with none the code asks the BIOS for zero sectors, and it compares counts as signed 16-bit numbers.
- The rest of the boot block, start-up code, keyboard, interrupt, timer and descriptor-table set-up, `ctype.c`, `stdio.c`: port input
  and output, fixed tables and wrappers.
