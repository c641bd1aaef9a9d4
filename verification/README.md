# A verified model of the kernel's hard parts

This project models four parts of the kernel in Dafny and proves what they are
for: the boundary-tag heap allocator (`alloc.c`), the formatted-output engine
(`printf.c`), the descriptor rings of the 10-gigabit network driver
(`drivers/ixgbe.c`), and the ordered init/deinit registry together with the
spinlock (`init.c`, `include/string.h`, `include/lock.h`). `dafny verify
dfyconfig.toml` checks all of it.

## The allocator

`AllocSpec` describes a heap as a value: chunks that tile page blocks, one free
list of header addresses per size class, the count of complete blocks per class,
and the payloads that callers hold. `malloc`, `free` and `realloc` are functions
on that value (`AllocRuns.Malloc`, `Free`, `Realloc`), built from small steps,
and `Inv` is kept by each of them and so by every run. `Alloc.Heap` is the
pointer program: the arrays `l_freePages` and `l_completePages`, tags linked by
`split_left`/`split_right` and by `next`/`prev`, and byte memory, all updated in
place. Each of its methods is proved to perform the step of the specification
that it stands for; `AllocTags` has the lemmas about linked tags. A *chunk in
hand* (`InHand`) is the state in the middle of a call, when a tag is on no list
and belongs to no caller.

Two facts about the code that the proofs settle:

- The search compares `real_size - 48` with `size + 48`, so a listed chunk is
  taken only if it has room for a second header; `AllocRuns.Search` does the same.
- `realloc` does not look at the result of `malloc` before it copies. With no
  memory and a byte to copy it stores through NULL; with nothing to copy it frees
  the payload and returns NULL. `AllocRuns.ReallocLive` gives the exact
  condition, `AllocRuns.NullStoreReached` a run that meets it.

## Formatted output

`PrintfText` says what text a format and its arguments stand for: parsing by
maximal munch, numerals, and layout. `Printf` is the program: the scanning loops
of the parser, digits by repeated subtraction from the tables, the output loops,
and a sink that is either the console or a buffer that can be full. The methods
are proved against the text, and `PrintfProofs` proves what the text is good
for. `PrintfMeaning` tells the output of a format from its characters, one flag,
letter and length modifier at a time and with the numbers written out, and proves
that the text is the same. The behaviour is the code's where it differs from section 7.21.6.1 of
ISO/IEC 9899:2011: 0 with precision 0 prints nothing even with a width, `%c`
ignores the width and prints the wrong character for most negative arguments
(`PrintfProofs.CharacterText`), `h` and `hh` do not narrow, and `vsnprintf` returns the number
of characters that the buffer took.

## Descriptor rings

`IxgbeRing` is a protocol between the driver and the hardware in which the driver
reads the hardware's head once and works on the stale copy; every step of either
side is atomic and every interleaving is a run. `Ixgbe.Queue` is the program for
one queue: the send and receive loops over the rings and buffers.

The guard at `drivers/ixgbe.c:405` lets through a head equal to the ring size,
from which the receive loop has no exit (`IxgbeRing.LoopExits`); this is the one
case that `Ixgbe.Queue.RecvFrames` shuts out.

## Registry and lock

`CString` has the string functions with `char` signed, as on the target, so that a
terminator is not the least character. `InitOrder` has the order of the entries
and the calls of the phases as values, `Init` the in-place sorts, the scan and the
phase loops. `Lock` runs the instructions of the spinlock on any number of CPUs,
with the console behind the lock.

The undoing loop of `init` starts at the NULL sentinel of `init_list`. The model
takes that turn too, with the text that the string functions read at address 0 as
a parameter. Deinit mirrors init exactly only if no deinit id begins with that
text (`InitOrder.UndoneExactly`); if the byte at address 0 is 0, every deinit
function runs once more, before the phases (`InitOrder.NullRunsAll`).

## Model

| member | source | states |
|---|---|---|
| Alloc.GetExp | alloc.c:66-90 | -1 below 256, else the exponent n with 2^n <= size < 2^(n+1), which is the size class; the comparison is unsigned up to shift 31 |
| Alloc.Heap.PushTag | alloc.c:175-183 | the exact new contents of tags and list heads after the stores of insert_tag |
| Alloc.Heap.InsertTag | alloc.c:163-184 | the tag becomes the head of the list of its size class (or the one named), the lists are doubly linked again, and nothing else about any chunk changes |
| Alloc.Heap.UnlinkTag | alloc.c:188-191 | head and neighbours bypass the tag, and no other tag or head changes |
| Alloc.Heap.RemoveTag | alloc.c:186-196 | exactly this tag leaves the list its index names, whatever its place there; lists stay doubly linked, chains and sizes unchanged, index -1 |
| Alloc.Heap.MeltLeft | alloc.c:199-209 | the left neighbour takes over exactly the bytes of the tag, and the split links again describe a tiling; it may still be on a list |
| Alloc.Heap.AbsorbRight | alloc.c:212-225 | the free right neighbour leaves its list and its bytes join the tag |
| Alloc.Heap.SplitTag | alloc.c:227-251 | the chunk is cut after header and payload, and the rest becomes the first free chunk of its own class |
| Alloc.Heap.AllocateNewTag | alloc.c:259-299 | the block is as many pages as the request needs, at least 16, as one tag with no neighbours; NULL changes nothing |
| Alloc.Heap.Search | alloc.c:328-343 | the walk along next finds the first chunk of the list whose real_size is at least size + 96, or none if all are smaller |
| Alloc.Heap.Initialize | alloc.c:311-322 | clearing the arrays on the first call leaves the heap as it was |
| Alloc.Heap.CanSplit | alloc.c:375-382 | in 32-bit arithmetic the excess is split off exactly if it holds a header and 256 bytes |
| Alloc.Heap.TakeTag | alloc.c:324-363 | malloc's tag is the first that fits, off its list and with the count of complete blocks kept, or else a new block; afterwards no neighbour of it is free |
| Alloc.Heap.Malloc | alloc.c:303-412 | the pointer program does to the heap, and returns, exactly what the specification's malloc does; no tag it may write meets a payload held throughout, and the bytes of memory are outside its frame |
| Alloc.Heap.JoinToLeft | alloc.c:444-452 | the loop makes at most one turn and joins exactly the free left neighbour, if there is one; the temporary mismatch of size and list is gone |
| Alloc.Heap.JoinToRight | alloc.c:454-461 | the loop makes at most one turn and joins exactly the free right neighbour, if there is one |
| Alloc.Heap.ReturnTag | alloc.c:464-500 | the tag goes to the list of its grown size; a whole block is counted, or given back when its class already keeps five |
| Alloc.Heap.FreeBlock | alloc.c:472-490 | the page layer gets the block's base and its length in pages; the rounding of the code adds nothing |
| Alloc.Heap.Free | alloc.c:418-508 | the pointer program does to the heap, and hands back, exactly what the specification's free does; no tag it may write meets a payload held throughout, and the tags of swallowed chunks are gone |
| Alloc.Heap.Memcpy | alloc.c:102-125 | copying by words and then by bytes makes the n bytes at the target those that were at the source, and no other byte changes |
| Alloc.Heap.Realloc | alloc.c:529-554 | outcome and heap are those of the specification; the first min(old, new) bytes are copied to the new payload and no other byte changes; no tag that exists at any time of the call meets a payload held throughout |
| Alloc.Heap.constructor | alloc.c:45-57 | zeroed static storage is an empty well-formed heap |
| Alloc.Heap.TagLinks | alloc.c:163-251 | between calls the split links are mutual inverses and lead to where the tag ends and starts; a tag is on a list exactly if its index is >= 0, then on that of its size, with mutually inverse list links; otherwise it is linked to nothing |
| Alloc.CopyMissesOthers | alloc.c:549-551 | realloc's copy changes no byte of any other live payload |
| AllocTags.InsertedLinks | alloc.c:163-184 | pushing a tag keeps every list linked both ways and acyclic |
| AllocTags.RemovedLinks | alloc.c:186-196 | unlinking from any place of a list keeps every list linked both ways and acyclic |
| AllocTags.JoinedChains | alloc.c:199-225 | after a join the split links describe the coarser tiling |
| AllocTags.CutChains | alloc.c:227-251 | after a split the split links describe the finer tiling |
| AllocTags.IndexIsClass | alloc.c:163-184 | a listed tag's index is max(8, floor(log2(real_size - 48))), and it is on that list |
| AllocProofs.ClaimInHand | alloc.c:357-363 | taking a listed chunk keeps tiling, lists, counts and coalescing, and no neighbour of it is free |
| AllocProofs.JoinLeftInHand | alloc.c:444-452 | joining to the left keeps tiling, lists, counts, coalescing and every payload |
| AllocProofs.JoinLeftAlone | alloc.c:444-452 | after one join to the left there is no free left neighbour, so the loop stops |
| AllocProofs.JoinRightInHand | alloc.c:454-461 | joining to the right keeps tiling, lists, counts, coalescing and every payload |
| AllocProofs.JoinRightAlone | alloc.c:454-461 | after one join to the right no neighbour is free, so the loop stops |
| AllocProofs.ReturnInv | alloc.c:464-500 | returning a chunk with no free neighbour restores the invariant; the count of complete blocks stays at most five and equal to their number |
| AllocProofs.CarveInv | alloc.c:367-399 | handing out a chunk, split or not, restores the invariant; the split leaves no two free neighbours |
| AllocRuns.MallocLive | alloc.c:303-412 | malloc adds one payload at a new address and changes no other; it fails exactly when nothing fits and there are no pages, and then changes nothing |
| AllocRuns.FreeLive | alloc.c:418-508 | free takes away one payload and changes no other |
| AllocRuns.ReallocLive | alloc.c:529-554 | realloc swaps the payload for a fresh one; the store through NULL happens if and only if there is no memory and the old payload is not empty |
| AllocRuns.NullStoreWhen | alloc.c:549-550 | the store through NULL happens for every payload with a byte when the list of the new size is empty and there are no pages |
| AllocRuns.NullStoreReached | alloc.c:549-550 | one malloc from the empty heap leads to such a state |
| AllocRuns.PayloadsApart | alloc.c:227-251 | live payloads lie inside their blocks and do not overlap |
| AllocRuns.PayloadMissesHeader | alloc.c:227-251 | a live payload overlaps no header, of used or free tags |
| AllocRuns.HeadersMissPayloads | alloc.c:303-508 | a payload held before and after, with the same size, meets no header of either state; the contracts of the three methods carry it over to every tag they may write |
| AllocRuns.BlocksTiled | alloc.c:199-251 | from the block's base the chain is contiguous, reaches every chunk of the block, and its sizes add up to a whole number of pages |
| AllocRuns.AllFreed | alloc.c:444-500 | when every payload is freed, every block left is one free chunk |
| AllocRuns.BytesConserved | alloc.c:199-299 | free bytes plus used bytes, headers included, are the bytes of the blocks |
| AllocRuns.MallocHeld | alloc.c:259-299 | malloc obtains pages exactly when nothing fits, as many as the request needs, and returns none |
| AllocRuns.FreeHeld | alloc.c:468-490 | free returns at most one block, with the base and page count it was obtained with |
| AllocRuns.FreeUndoesMalloc | alloc.c:303-508 | freeing what malloc took from a list restores every chunk, count and payload, split or not; only the order of that one list changes |
| AllocRuns.FreeUndoesObtain | alloc.c:259-508 | freeing what malloc obtained from the page layer hands the very block back if its class already keeps five, and otherwise keeps it whole, counted and first on its list |
| AllocRuns.Run | alloc.c:303-554 | every sequence of calls by well-behaved callers keeps the invariant |
| AllocMeaning.ClassMeans | alloc.c:66-90 | list 8 for payloads below 256 bytes, otherwise the list i with 2^i <= n < 2^(i+1) |
| AllocMeaning.PagesMean | alloc.c:265-273 | the least number of pages, from 16 up, that holds the payload and 48 bytes |
| AllocMeaning.HeapNumbers | alloc.c:5-8 | between calls: blocks of whole pages and at least 16, chunks of at least 48 bytes inside them, at most five whole free blocks on a list, payloads 48 bytes behind their tags |
| AllocMeaning.MallocChooses | alloc.c:324-363 | malloc returns NULL if and only if there are no pages and every chunk on the list of the size has less than size + 96 bytes; it takes the first that has as many, and else the new block |
| AllocMeaning.MallocChanges | alloc.c:346-399 | the chunk taken, cut after 48 + size bytes exactly if at least 256 remain behind another header, is the only one to change; the rest heads its list, every other list keeps its order, and the count of whole blocks drops exactly when one is taken |
| AllocMeaning.FreeChanges | alloc.c:444-500 | the chunk is joined with the free chunks of its block on either side, which leave their lists, and no other chunk changes; the result goes back exactly if it is a whole block and five are counted already, and otherwise heads its list, counted if whole |
| AllocMeaning.SpaceExists | alloc.c:444-461 | the free space around a chunk always has such a beginning and end |
| AllocMeaning.ReallocEdges | alloc.c:535-540 | realloc of NULL is malloc, and to size 0 is free with NULL for an answer |
| AllocRuns.RunKeepsOthers | alloc.c:303-554 | no run of calls moves or resizes a payload that none of them names |
| AllocRuns.RunConservesBytes | alloc.c:259-508 | over every run, free plus used bytes are the pages obtained less the pages returned |
| PrintfProofs.NumeralReads | printf.c:233-255 | the numeral's digits are below the base and evaluate to the value; the first is 0 only for 0 |
| PrintfProofs.NumeralLength | printf.c:233-255 | the numeral has the least possible number of digits |
| PrintfProofs.NumeralFits | printf.c:264-279 | 64-bit values take at most 20, 22 and 16 digits, within the buffer of 32 |
| Printf.Tables | printf.c:44-112 | the three tables are the descending powers of their base, ended by 0, and cover 64-bit values |
| Printf.CountOff | printf.c:245-249 | repeated subtraction ends and gives quotient and remainder |
| Printf.Valconv | printf.c:233-255 | the buffer holds the canonical numeral, of a length within the table |
| Printf.Measure | printf.c:280-318 | the five lengths and the prefix that the layout calls for |
| Printf.DoConversionInt | printf.c:257-332 | the sink is offered exactly the conversion's text and the count is what it took |
| PrintfProofs.IntLayout | printf.c:280-329 | the order is spaces, prefix, zeros, digits, spaces; the length is max(width, prefix + max(precision, digits)); zeros pad only without precision and left adjustment |
| PrintfProofs.EmptyText | printf.c:270-271 | an integer conversion prints nothing if and only if value and precision are 0, whatever the width |
| PrintfProofs.IntReadsBack | printf.c:257-332 | every printed integer, under any flags, width and precision, reads back as the value and sign |
| PrintfProofs.DirectiveReadsBack | printf.c:386-438 | what an integer directive prints reads back as its argument, taken at the width that its length modifier calls for |
| PrintfProofs.PrintedReadsBack | printf.c:362-460 | a whole format that is one integer directive, with any flags, width, precision and length modifier, prints text that reads back as its argument |
| PrintfMeaning.FormatMeans | printf.c:114-460 | a format of any number of characters and directives prints, one after the other, what each stands for by itself: base, digits, sign, prefix, padding and cut by its own letter, flags, width, precision and length modifier, on the argument whose turn it is; each of the nine letters takes one argument, %% and other letters none |
| PrintfMeaning.PrintedIs | printf.c:257-451 | the same for one directive, with the nine letters that take an argument |
| PrintfMeaning.NumeralAt | printf.c:233-255 | the digit k places from the right is the one for v / base^k mod base |
| PrintfMeaning.CStringMeans | printf.c:342-345 | a string argument is what stands before its first NUL |
| PrintfMeaning.ParseParts | printf.c:114-230 | on any format, canonical or not: where flags, width, precision, length modifiers and letter of a directive are, and which bits each character of them sets |
| PrintfMeaning.RenderedLetterBits | printf.c:197-228 | the bits of each conversion letter |
| PrintfMeaning.RenderedFlagBits | printf.c:122-166 | the bits of each flag character, and of a width and precision |
| PrintfMeaning.RenderedLengthBits | printf.c:168-195 | the bits of each length modifier |
| PrintfProofs.CharacterText | printf.c:400-406 | %c prints the character of its argument if and only if the argument is not negative or its low byte is 0 or 128 |
| PrintfProofs.NegativeCharacter | printf.c:266-269 | the byte 0xE9 as a signed char comes out as character 23 |
| Printf.DoConversionString | printf.c:334-360 | the text up to the NUL or the precision, padded on one side; a precision bounds what is read |
| Printf.ScanNumber | printf.c:144-166 | the longest run of digits, and its value |
| Printf.ParseFormat | printf.c:114-230 | the parser with its gotos reads the directive by maximal munch; the format ends with its NUL, so that indexing shows nothing is read behind it |
| PrintfProofs.ParseInverts | printf.c:114-230 | parsing a rendered directive gives back its flags, width, precision, length and conversion and ends behind it |
| PrintfProofs.ParseStopsAtNul | printf.c:114-230 | only the last character read can be the NUL, and it is so exactly when the end of the string is reported |
| Printf.Sink.Put | printf.c:462-481 | a character is taken if there is room, the last place getting a NUL; a full sink refuses and changes nothing |
| Printf.DoPrintf | printf.c:362-460 | the sink takes the longest prefix of the whole output that it has room for, though the loop goes on after a failed conversion |
| Printf.Vprintf | printf.c:495-502 | the console gets the whole output, which for a format of items is what the items print one after the other, and its length is returned |
| Printf.Vsnprintf | printf.c:516-527 | min(length, size - 1) characters and a NUL are stored and nothing else is written; the result is min(length, size), and size 0 writes nothing |
| IxgbeRing.FullMeansNoRoom | drivers/ixgbe.c:233-244 | the comparison of head with the next slot is the test for room, one slot staying empty |
| IxgbeRing.AcceptFits | drivers/ixgbe.c:232-259 | the frames taken are the first of those that fit a buffer, at most the room; all of them unless the ring was seen full, and then exactly the room |
| IxgbeRing.AcceptSeesFull | drivers/ixgbe.c:238-244 | full is reported if and only if a frame was still to come when the room was used up |
| IxgbeRing.AcceptSeesBig | drivers/ixgbe.c:246-249 | too big is reported if and only if a frame of at least bufsize bytes comes up while there is room |
| IxgbeRing.FittingMeans | drivers/ixgbe.c:246-249 | the frames that fit are those shorter than bufsize, each as often as it is handed in |
| IxgbeRing.WindowAt | drivers/ixgbe.c:233-236 | the ring's contents from a to b are the slots from a on, around the ring |
| IxgbeRing.StoreExtendsWindow | drivers/ixgbe.c:251-258 | frames stored in free slots join the ring's contents at the end, in order |
| IxgbeRing.RunWritesOnlyFree | drivers/ixgbe.c:224-258 | in every interleaving, however stale the head the driver read, the slot it writes is not the hardware's, and what it stores leaves all frames still to be sent as they were |
| IxgbeRing.NextKeepsInv | drivers/ixgbe.c:224-259 | every step of driver and hardware keeps: accepted = sent + contents of the ring |
| IxgbeRing.RingIsQueue | drivers/ixgbe.c:224-259 | in every interleaving the ring is a FIFO of capacity n - 1: nothing lost, duplicated or reordered |
| IxgbeRing.CallAccepts | drivers/ixgbe.c:224-259 | whatever the hardware does meanwhile, a call accepts exactly the frames decided by the head it read |
| Ixgbe.Queue.constructor | drivers/ixgbe.c:308-384 | the registers, empty descriptors and buffers, ring sizes and enable flags as the set-up leaves them; the receive tail at the last slot (drivers/ixgbe.c:579-582) |
| Ixgbe.Queue.FillSlot | drivers/ixgbe.c:251-255 | the slot holds exactly the frame and describes it as one whole packet; no other slot changes |
| Ixgbe.Queue.SendFrames | drivers/ixgbe.c:207-271 | the frames accepted follow, in order, whatever the hardware still has to send from any slot it may have reached meanwhile; the tail register moves behind them, and the error bits say full and too big exactly; a disabled or absent device changes nothing |
| IxgbeRing.LoopExits | drivers/ixgbe.c:405-422 | the receive loop's walk meets the head if and only if the head is a slot; the guard lets one more value through |
| Ixgbe.Check | drivers/ixgbe.c:429-448 | none if and only if the descriptor is a whole frame without an error flag; otherwise one error, of which no flag tested earlier is set |
| Ixgbe.FaultsSeen | drivers/ixgbe.c:429-448 | a call reports an error if and only if some descriptor it went through shows that error first |
| Ixgbe.GoodMeans | drivers/ixgbe.c:424-450 | the frames reported are those of the descriptors without an error, all of them, in ring order, each with its own buffer and length |
| Ixgbe.Queue.RecvFrames | drivers/ixgbe.c:387-463 | for every head and tail that the guard lets through, except the head from which the loop has no exit: exactly the (head - tail - 1) mod n descriptors up to the head are processed, none past the batch of 16; the batches, all full but the last, make up the error-free frames in ring order; the new tail's next slot is the head |
| CString.StrCmp | include/string.h:23-35 | the comparison by the first difference, reading no character past a terminator |
| CString.MemCmp | include/string.h:37-48 | 0 if and only if the first string begins with the given bytes of the second, reading nothing past a terminator |
| CString.OrderTotal | include/string.h:23-35 | strcmp is 0 only on equal strings and changes sign with its arguments |
| CString.OrderTransitive | include/string.h:23-35 | strcmp is transitive, for signed characters too |
| Init.InitCmp | init.c:48-62 | whether the first entry comes after the second: its id compares greater, or the ids are equal and its file name does |
| InitOrder.AfterTotal | init.c:48-62 | two entries are unordered if and only if their keys are equal |
| InitOrder.AfterTransitive | init.c:48-62 | the order is transitive |
| Init.InitSwap | init.c:38-46 | two entries change places and nothing else does |
| Init.Settle | init.c:70-72 | one inner loop puts in its place the entry that belongs there |
| Init.Sort | init.c:69-76 | the exchange sort gives a permutation in which each id is at most the next and equal ids are ordered by file name; descending the other way round |
| Init.Registry.InitScan | init.c:10-22 | the functions called are those whose id begins with the phase name, in table order |
| Init.Registry.Init | init.c:86-106 | permutations of both tables, ascending and descending by id and then file name; the entries of bsp, driver and ap in this order, then main, then the turn at the sentinel, then ap, driver and bsp, and no other call; if the tables handed in have the same keys, the real phases are undone in exactly the reverse order, and everything called after main is that reverse if and only if no deinit id begins with what is read at address 0 |
| InitOrder.CallsOnce | init.c:79-99 | an entry runs exactly as often as it is in the table if its id begins with a phase name, and otherwise not at all |
| InitOrder.MatchingAt | init.c:10-22 | the entries of a phase are exactly those of the table whose id begins with its name, in table order |
| InitOrder.SortedUnique | init.c:64-77 | two sorted tables of the same keys agree in every place |
| InitOrder.DeinitReversesInit | init.c:64-104 | with matching tables the deinit calls are in exactly the reverse order of the init calls |
| InitOrder.SameKeysKept | init.c:64-77 | the sorted tables have the same keys if and only if the tables handed in have |
| InitOrder.UndoneExactly | init.c:79-104 | with matching tables, all calls after main are the reverse of those before it if and only if no deinit id begins with what is read at address 0 in place of the sentinel |
| InitOrder.NullRunsAll | init.c:79-104 | if that is the empty string, every deinit function runs, before the phases |
| Lock.NextKeepsInv | include/lock.h:8-46 | every instruction keeps: the byte is 1 exactly while one CPU has the lock, and the console shows whole messages and that CPU's part |
| Lock.MutualExclusion | include/lock.h:8-46 | in every interleaving at most one CPU has the lock |
| Lock.ByteSaysHeld | include/lock.h:8-46 | in every interleaving the byte is 0 or 1, and 1 exactly if a CPU has the lock |
| Lock.MessagesStayWhole | printf.c:369-371 | in every interleaving the console is whole messages in order and then a beginning of at most one more |
| Lock.MessagesConserved | printf.c:371-459 | the messages of all calls are those finished and those still with a CPU, each once |
| Lock.WaiterGetsIn | include/lock.h:13-22 | a waiting CPU that finds the lock free is inside after at most five instructions of its own |

## Left out

- `page.c`: the page layer is a parameter of `malloc`, the address it answers with, required to be fresh; its region switch checks room for one page only, so it does not keep that promise by itself.
- `calloc` and `liballoc_memset`: a fill around `malloc`.
- DEBUG printing and its two counters in `alloc.c`.
- Freeing or resizing a pointer that is not live: callers pass NULL or a payload they hold, so the test of the magic number never fails in the model.
- Tags are objects beside the bytes of memory instead of lying in them; `ClearOf` in the contracts of malloc, free and realloc says that no header they may write meets a payload held.
- Alloc.Heap.Malloc: requests are bounded so that header and payload, in pages, stay below 2^31, because the code keeps sizes in 32 bits; calls are modelled one after the other, because `liballoc_lock` is held throughout (`Lock` has the lock itself).
- Alloc.Heap.Realloc: the call ends at the store through NULL, because what it does to the machine depends on what lies at address 0.
- Printf.ParseFormat: width and precision are unbounded, where the code's `int` would overflow from 2^31.
- Printf.DoPrintf: arguments are a total function from slot numbers to 64-bit words with the string each may point to, in place of `va_list`; the lock is in `Lock`.
- `putchar` and its UART polling: the console is the sequence of characters handed to it.
- Ixgbe.Queue.SendFrames: one queue, with the values that its two registers read as for parameters; a head that is no slot is outside the hardware's contract.
- Ixgbe.Queue.RecvFrames: reports go to a log of the batches instead of `printf`; a head equal to the ring size, with the guard passed, is shut out because the loop then has no exit.
- Descriptor bit layout, link-up, time-outs, register set-up and MAC addresses of `drivers/ixgbe.c`.
- Init.Registry.Init: a machine on which address 0 cannot be read is not modelled; the registered functions have no effect but to be logged.
- Lock.WaiterGetsIn: fairness among waiting CPUs is not promised by the code.
- `acpi.c`, `apic.c`, `drivers/pci.c`, `timer.c` and the timer drivers: firmware tables and registers, with only easy members.
- Assembly, linker scripts and the boot loader.
