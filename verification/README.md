# A verified model of the kernel's memory, terminal, keyboard and shell

The kernel in this repository allocates page frames from a bitmap, hands out heap memory from
an address-ordered list of headers, shows text through a scrollback window, queues key events
from an interrupt handler, and edits and splits command lines in fixed buffers. This project
models those parts in Dafny and proves what they keep over every run.

Each component has a specification on values and an imperative model that updates the same
state as the C code does, in the same order, and is proved to follow the specification. The
properties are then proved of the specification.

| component | specification | in place |
|---|---|---|
| heap (`src/heap.c`) | `Blocks`, `HeapModel`, `HeapInvariant`, `HeapStale`, `HeapRuns`, `HeapWitnesses` | `Heap` |
| page frames (`src/pmm.c`) | `Frames` | `Pmm` |
| terminal (`src/vga.c`) | `Terminal` | `Vga` |
| keyboard (`src/keyboard.c`) | `KeyboardModel` | `KeyboardDriver` |
| shell (`src/shell.c`) | `CommandLine`, `ShellModel` | `CommandLine.Parse`, `Shell` |
| strings (`src/kstring.c`) | `KString` | `KString` |

`dafny verify dfyconfig.toml` checks everything.

## What is proved

**Heap.** The clients' memory is theirs alone over a whole run, each allocation having one holder
and its bytes to itself, *if and only if* no expansion is absorbed: an expansion coalesces the
list before it returns its header, and when the block below ends where the new region starts, is
free and has a size divisible by 16, the header is no longer in the list although it is handed out
(`src/heap.c:79-81`). When that happens is proved in closed form, runs of three and four calls
show two live allocations sharing memory and one address handed out twice, and a variant that
searches again after an expansion, labelled as one, is proved safe over every run without any
condition. The list stays in address order and tiles exactly the frames obtained over every run of
calls that releases only headers of the list. A pointer whose header was absorbed can be released
only by writing a flag byte that another header may cover by then; the list survives that exactly
when no listed header has a zero byte there, and a run of five calls shows one that does not.
Releasing at once what was served without expansion restores the heap exactly.

**Page frames.** The bitmap refines a set, the cached count is its size, and the contiguous search
finds the lowest run. When the page rounding goes wrong is proved exactly; otherwise, after boot
the free frames are characterised byte for byte, in the terms of the memory map (type 1 is usable
memory, section 15 of the ACPI specification, version 6.4). Over every run frames are conserved
and live allocations are disjoint.

**Terminal.** The 256-row history buffer is the window on the newest rows of a document that is
never cut off; cursor, view, screen memory and the cursor registers always agree with it. Where a
written text lies in the document is given by a layout function that knows only line breaks and
the row width.

**Keyboard.** The consumer's check, slot read and tail update are separate steps, and an interrupt
may come before and after each (the gates of `src/trap.c:57` are interrupt gates, and
`src/trap.c:128-131` calls the handler). Under every interleaving no accepted event is lost,
duplicated, reordered or overwritten while it is read.

**Shell.** The ring is the newest 32 accepted lines; what Enter submits is what was typed;
browsing up and down restores the draft exactly when the buffer's string ends at the cursor; the
tokenizer finds exactly the maximal words, and `echo` undoes it.

**Numbers.** Parsing accepts exactly digit strings and formatting is its inverse on 64 bits.

## Reading notes

- Heap alignment: the code rounds requests to multiples of 16 (`src/heap.c:6`), but headers are
  24 bytes long, so payload addresses are multiples of 8 only. The model follows the code.
- A fresh prompt does not clear the buffer (`src/shell.c:467-470`), so browsing up and down from
  it shows the last command; `ShellModel.FreshPromptShowsStaleCommand` says so.
- Free bytes are reported as total less used (`src/heap.c:166`), which can be negative:
  `HeapWitnesses.UsedExceedsTotal` has a run, `HeapRuns.Conservation` the exact condition.
- Runs consist of calls. Clients' own writes to their payloads touch no header in a safe state
  (`HeapRuns.ConsistentIsSafe`); after an absorbed expansion they can, and nothing is claimed then.
- A live allocation is counted as often as it has holders, in the heap as in the frame allocator,
  so that handing out an address twice is visible.
- A ghost field of a class (`free`, `view`, `doc`, `model`) is the value of the specification
  that the real fields are proved to represent.
- A header is an object with the address it would have in memory; a header that coalescing drops
  stays as an object with its old fields, as the bytes in memory do.

## Model

| member | source | states |
|---|---|---|
| `Blocks.MergeTouches` | src/heap.c:51-55 | in an address-ordered list the merge test, which compares with the end of the rounded size, succeeds exactly for two free blocks that truly touch and of which the first has a size divisible by 16 |
| `Blocks.CoalesceShape` | src/heap.c:47-63 | coalescing keeps the address order, where the list starts and where it ends |
| `Blocks.CoalesceKeeps` | src/heap.c:47-63 | coalescing keeps the covered bytes, every allocated block in order, and the byte balance: a header that disappears becomes free payload |
| `Blocks.CoalesceReachesFixpoint` | src/heap.c:47-63 | one pass leaves no two neighbours that the test would still merge |
| `Blocks.CoalesceFixpoint` | src/heap.c:47-63 | a pass over a coalesced list changes nothing |
| `Blocks.CoalescedMeaning` | src/heap.c:47-63 | in a coalesced list no free block with a size divisible by 16 is directly followed by a touching free block |
| `Blocks.CoalesceConcat` | src/heap.c:47-63 | a pass over a list is a pass over its front part, followed by a pass over the rest with the front's last block before it |
| `HeapModel.CarveMeaning` | src/heap.c:84-99 | splitting keeps exactly the block's bytes, header included; the first part is allocated, at the old address, and of the rounded request when there is a second, which is free and of at least 32 bytes; there is none only when the rest has less than that and a header |
| `HeapModel.CarveGranular` | src/heap.c:84-99 | addresses and sizes stay multiples of 8, and the block handed out is at most 48 bytes larger than the rounded request |
| `HeapModel.PlaceKeeps` | src/heap.c:117-119 | handing out a block keeps the covered bytes and the balance, and adds exactly one block to the allocated ones |
| `HeapModel.PagesForMeaning` | src/heap.c:66-67 | the page count of an expansion is the one number of pages that hold the request and a header when one page less does not |
| `HeapInvariant.ExpandStructured` | src/heap.c:65-82 | an expansion keeps the list address-ordered, in multiples of 8, balanced, and tiling exactly the frames obtained, absorbed or not |
| `HeapInvariant.ExpandKeepsAllocated` | src/heap.c:65-82 | an expansion leaves every allocated block where it was |
| `HeapInvariant.ExpandTakesFewest` | src/heap.c:65-82 | an expansion takes the lowest run of the fewest free frames that hold the request and a header, adds their bytes less a header to the total, and changes nothing when there is no such run |
| `HeapInvariant.KmallocFails` | src/heap.c:107-134 | while frame 0 is reserved, an allocation returns null exactly when nothing is asked for, or when no free block holds the rounded request and no run of free frames holds it with a header; then nothing changes |
| `HeapInvariant.ExpansionCoalesced` | src/heap.c:79-81 | the list after an expansion in closed form: the new block never merges forward; it is gone from the list exactly when the coalesced part below it ends in a free touching block of a size divisible by 16, and then its bytes are inside a free block that starts below it |
| `HeapInvariant.KmallocStructured` | src/heap.c:107-134 | every allocation keeps the list ordered and tiling exactly the frames obtained, absorbed or not |
| `HeapInvariant.KfreeStructured` | src/heap.c:149-160 | every release keeps the same, and takes away exactly the released block from the allocated ones |
| `HeapInvariant.KfreeTwice` | src/heap.c:149-160 | releasing a block again, while its header is in the list, changes nothing |
| `HeapRuns.ConsistentIsSafe` | src/heap.c:107-160 | in a consistent heap every live allocation has one holder, and no byte of its payload, counted up to the rounded request, belongs to another live payload, to a header of the list or to a free block; all of it is in frames obtained |
| `HeapRuns.StepConsistent` | src/heap.c:107-160 | an allocation whose expansion is not absorbed, a release of a held pointer or of null, and whatever else the frame allocator does short of giving away the heap's frames, keep the heap consistent; the pointer that an allocation returns was held by nobody |
| `HeapRuns.AbsorptionIsUnsafe` | src/heap.c:79-81 | an allocation whose expansion is absorbed returns memory that the list holds as free, with a header that is not in the list |
| `HeapRuns.SafeExactlyWithoutAbsorption` | src/heap.c:24-160 | over every run of valid calls: every live allocation has one holder and shares no byte with another, with a header or with a free block, in every state, exactly when no expansion was absorbed |
| `HeapRuns.InitialConsistent` | src/heap.c:101-105 | a heap just initialized is consistent |
| `HeapRuns.RunsStayStructured` | src/heap.c:24-160 | over every run of valid calls, absorbed expansions and addresses with several holders included, the list is ordered, tiles exactly the frames obtained and has no dangling link in every state if and only if no release of a header that is not in the list meets a listed header with a zero byte over its flag |
| `HeapRuns.ListedReleasesKeepStructure` | src/heap.c:24-160 | in particular the list stays so over every run that releases only headers of the list, and over every run without absorption |
| `HeapStale.FlagOverlaps` | src/heap.c:10-14 | only a listed header that starts 8 or 16 bytes after an unlisted one can lie over its flag byte, so that the byte is the low byte of a link or of a size, and never two can |
| `HeapStale.StaleKfreeMeaning` | src/heap.c:154-159 | releasing a header that is not in the list, whatever its bytes hold by then, leaves an ordered list that tiles the frames obtained exactly when no listed header has a zero byte over its flag |
| `HeapRuns.Conservation` | src/heap.c:162-166 | with `used_bytes` the sum of the allocated sizes, as every consistent heap has it, total less used is the free payload plus a header for each block less one for each expansion; used stays within total exactly when the headers gained by merging across regions do not exceed the free payload |
| `HeapRuns.RunsConserve` | src/heap.c:162-166 | so it is after every run without absorption, `used_bytes` being the sum of the allocated sizes |
| `HeapRuns.MallocTakesLowest` | src/heap.c:115-121 | without expansion a request is served from the lowest free block that can hold it, with at most 48 bytes more than its rounded size |
| `HeapRuns.MallocFree` | src/heap.c:107-160 | on a coalesced heap, releasing at once what was served without expansion restores the list, every size and flag, and the counters exactly |
| `HeapRuns.RetryingIsSafe` | src/heap.c:125-133 | a repaired variant, which searches again after an expansion instead of using the new header, keeps every heap consistent and safe with no condition, returns a pointer that nobody held, and fails exactly when the source does |
| `HeapRuns.RetryingRunsAreSafe` | src/heap.c:107-160 | over every run of the repaired variant with the source's releases, every live allocation has one holder and its bytes are its own in every state, and no release meets a header that is not in the list |
| `HeapWitnesses.AbsorbingRun` | src/heap.c:65-134 | `kmalloc(64)`, `kmalloc(4096)` over adjacent frames is a run that does not stay safe |
| `HeapWitnesses.OverlappingAllocations` | src/heap.c:65-134 | one more `kmalloc(4096)` and two live allocations share a byte |
| `HeapWitnesses.SameAddressTwice` | src/heap.c:65-134 | `kmalloc(64)`, `kmalloc(4096)`, `kmalloc(3984)`, `kmalloc(4096)` return one address twice with no release between |
| `HeapWitnesses.StaleReleaseDamagesList` | src/heap.c:149-160 | `kmalloc(64)`, `kmalloc(4096)`, `kmalloc(4000)`, `kmalloc(256)` and the release of the second pointer: the third listed block's size becomes 257, so that it ends one byte inside the next header and the list is not ordered any more |
| `HeapWitnesses.UsedExceedsTotal` | src/heap.c:162-166 | seven valid calls without absorption after which 8168 bytes are used of a total of 8144, so that the free bytes that the heap reports wrap around |
| `Heap.HeapAllocator.constructor` | src/heap.c:101-105 | the heap starts with no block, no bytes and nothing obtained |
| `Heap.HeapAllocator.FindPlace` | src/heap.c:30-37 | the walk ends between the last header below the address and the first at or above it |
| `Heap.HeapAllocator.LinkBetween` | src/heap.c:39-44 | the links then visit the same headers in the same order with the new one between |
| `Heap.HeapAllocator.AppendBlock` | src/heap.c:24-45 | the block is linked in at its place in address order, whatever the length of the list |
| `Heap.HeapAllocator.MergeNext` | src/heap.c:56-57 | the two writes leave the links visiting all headers but the one taken in, which keeps its fields in memory |
| `Heap.HeapAllocator.CoalesceAll` | src/heap.c:47-63 | the loop terminates with the linked list that `Coalesce` describes, and leaves the size of a header it drops as it was |
| `Heap.HeapAllocator.ObtainRegion` | src/heap.c:66-78 | the frames of a request are taken in 64-bit arithmetic and get one free header, and the total grows by its payload; nothing changes when there are none |
| `Heap.HeapAllocator.HeapExpand` | src/heap.c:65-82 | the linked list, the counters and the frame allocator become those of an expansion; the header returned may be one that is not linked any more, its size then being unchanged |
| `Heap.HeapAllocator.SplitBlock` | src/heap.c:84-99 | the linked list gets the split block's two parts, or stays as it is when the rest would be too small; a header that is not linked is split without the list noticing |
| `Heap.HeapAllocator.FindFirstFit` | src/heap.c:113-123 | the walk finds the first free header that is large enough |
| `Heap.HeapAllocator.Kmalloc` | src/heap.c:107-134 | allocation in place does what the specification says to list, counters, frames and pointer, and the header handed out is linked exactly when no expansion was absorbed |
| `Heap.HeapAllocator.Kfree` | src/heap.c:149-160 | release in place of a linked header, or of null, does what the specification says and keeps the invariant; a linked header that is free already is left alone |
| `Heap.RequestArithmetic` | src/heap.c:20-67 | rounding a request and counting its pages modulo 2^64 is right, or refuses what is out of reach anyway, exactly for requests of at most 2^64 - 32 bytes |
| `Frames.FreedByMeaning` | src/pmm.c:23-58 | for every range within the 64-bit address space, the frames that freeing it releases are exactly the managed ones wholly inside it if and only if the rounding does not wrap around: it starts at or below 2^64 - 4096, or it ends with the address space and starts above the last managed frame; a range that starts in the last page and ends before its end releases every managed frame |
| `Frames.ReservedByMeaning` | src/pmm.c:23-38 | for every range within the 64-bit address space, the frames that reserving it takes are exactly the managed ones that meet it if and only if it ends at or below 2^64 - 4096 or starts above managed memory; otherwise it takes none |
| `Frames.InitialFreeMeaning` | src/pmm.c:69-90 | after boot, with no range that makes the rounding wrap around, a frame is free exactly when it is below 1 GiB, lies wholly inside a single entry of type 1 and meets none of the reserved ranges; no frame below 1 MiB is free |
| `Frames.LastPageEntryFreesAll` | src/pmm.c:23-81 | a type-1 entry of one byte at 2^64 - 4095 leaves every managed frame free but the reserved ones, although none is inside it |
| `Frames.InitialFreeIgnoresOrder` | src/pmm.c:77-81 | the order of the memory map's entries does not matter, whatever they are |
| `Frames.ReleasedMeaning` | src/pmm.c:77-81 | what usable entries that do not make the rounding wrap around release together are the frames wholly inside one of them, whatever their overlap |
| `Frames.TakeMeaning` | src/pmm.c:96-124 | while frame 0 is reserved, null means exactly that the count is 0 or no such run is free; any other result is the lowest run, and exactly its frames are marked |
| `Frames.TakeGive` | src/pmm.c:96-149 | giving back at once what was allocated restores the free frames exactly |
| `Frames.FrameZeroFreed` | src/pmm.c:130-149 | frame 0 becomes free exactly when a non-null address inside it is given back |
| `Frames.TakeKeepsBalance` | src/pmm.c:96-124 | an allocation returns frames none of which is in a live allocation, and keeps every frame free or in exactly one |
| `Frames.GiveFreesAllocation` | src/pmm.c:130-149 | giving back a live allocation frees exactly its frames, none of which was free |
| `Frames.RunsStayBalanced` | src/pmm.c:96-149 | over every run of allocations and releases of live allocations, each frame is free or in exactly one live allocation with one holder, and nothing else is |
| `Frames.BootedRunsStayBalanced` | src/pmm.c:69-149 | the same from boot on, whatever the boot information, and frame 0 is never free, so that null always means failure |
| `Pmm.SetOneBit` | src/pmm.c:13 | setting the bit of a frame changes no other bit of its byte |
| `Pmm.ClearOneBit` | src/pmm.c:15-17 | clearing the bit of a frame changes no other bit of its byte |
| `Pmm.FrameAllocator.BitSet` | src/pmm.c:13 | the bitmap then represents the free frames less this one |
| `Pmm.FrameAllocator.BitClear` | src/pmm.c:15-17 | the bitmap then represents the free frames and this one |
| `Pmm.FrameAllocator.BitTest` | src/pmm.c:19-21 | a frame's bit is set exactly when it is not free |
| `Pmm.FrameAllocator.ReserveRange` | src/pmm.c:29-47 | reserving takes away the frames of the range rounded outwards modulo 2^64, and keeps the cached count equal to the number of clear bits |
| `Pmm.FrameAllocator.FreeRange` | src/pmm.c:49-67 | freeing adds the frames of the range rounded inwards modulo 2^64, and keeps the cached count equal to the number of clear bits |
| `Pmm.FrameAllocator.Init` | src/pmm.c:69-90 | from any earlier state, the free frames are those of the boot information, and the count agrees |
| `Pmm.FrameAllocator.AllocFrames` | src/pmm.c:96-124 | the scan returns and marks the lowest run of free frames of that length, or returns null and changes nothing; the count agrees |
| `Pmm.FrameAllocator.FreeFrames` | src/pmm.c:130-149 | for any address and count, exactly the longest allocated stretch at the start of the range becomes free; the count agrees |
| `Terminal.PutCharWellFormed` | src/vga.c:140-174 | after any character the cursor is on a retained row inside the content width, and the view between the oldest retained row and the bottom |
| `Terminal.CursorInContent` | src/vga.c:71-80 | the hardware cursor is inside the content area, in the column of the document's cursor, and in its row when the view shows it, in the last content row otherwise |
| `Terminal.EntryBytes` | src/vga.h:32-34 | the low byte of a cell is the character, the high byte the colour |
| `Terminal.WindowMeaning` | src/vga.c:15-20 | the newest 256 rows are retained, and the view at the bottom shows 23 rows that end with the newest |
| `Terminal.BorderBlank` | src/vga.c:47-68 | the first and last row and column of the screen are blank |
| `Terminal.ContentShown` | src/vga.c:57-68 | cell x of content row y, one cell in from the border, shows cell x of the y-th row of the view, blank when the document has no such row |
| `Terminal.ClearedShown` | src/vga.c:186-197 | a cleared screen is blank all over with the cursor on its first content cell |
| `Terminal.CharacterAtCursor` | src/vga.c:71-174 | a character written where the view shows the cursor appears on the screen exactly at the hardware cursor, which moves on by one, and nowhere else |
| `Terminal.PutEntryShown` | src/vga.c:129-138 | overwriting a visible cell changes that cell of the screen and no other, and moves nothing |
| `Terminal.ScrollMeaning` | src/vga.c:201-215 | the view moves by the given rows, stopped by the oldest retained row and by the bottom; rows and cursor stay |
| `Terminal.ScrollBackAndForward` | src/vga.c:201-215 | scrolling and scrolling back restore the view if and only if no end stops it, or it starts at one end and both do |
| `Terminal.ScrollShown` | src/vga.c:201-215 | scrolling back n rows shows each row that stays visible n screen rows further down |
| `Terminal.OutputKeepsView` | src/vga.c:87-141 | output at the bottom stays at the bottom; scrolled back, the view keeps its document rows unless its top was the oldest retained row and that row is dropped |
| `Terminal.WriteKeepsView` | src/vga.c:87-180 | any text leaves a view at the bottom at the bottom, and a view scrolled back on its document rows or, when they are dropped, on the oldest retained ones |
| `Terminal.TextLaidOut` | src/vga.c:140-180 | a text without backspaces, of any length, lies in the document cell for cell where its line breaks and the row width put it, rows entered are blank elsewhere, and nothing else changes |
| `Terminal.BackspacesErase` | src/vga.c:148-160 | n backspaces move the cursor back n cells, across row starts but not before the oldest retained row, and blank exactly the cells they pass |
| `Terminal.BackspaceAfterCharacter` | src/vga.c:148-167 | a backspace after a character brings the cursor back, across the wrap too, and leaves that cell blank; of the other rows only the one that a wrap entered changes, to a blank one |
| `Vga.KeptAfterNext` | src/vga.c:31-45 | the window of the newest 256 rows after a line break: the old one, moved up one row when it was full, with the new row blank |
| `Vga.Console.ShiftHistoryUp` | src/vga.c:31-45 | the overlapping copy moves every row up by one, and the three row numbers follow |
| `Vga.Console.RenderViewport` | src/vga.c:47-69 | the screen becomes the view of the document: its rows inside a blank border, blank below its end, in the present colour |
| `Vga.Console.UpdateCursor` | src/vga.c:71-85 | the four port writes leave the two cursor registers with the position of the document's cursor, or with the last row of a view that does not show it |
| `Vga.Console.SyncViewport` | src/vga.c:87-96 | the view goes to the bottom when it follows it and stays otherwise; screen and cursor agree again |
| `Vga.Console.AdvanceLine` | src/vga.c:98-112 | the window, the cursor, the view and the screen are those of the document with one more line break |
| `Vga.Console.PutCharacter` | src/vga.c:140-174 | after any character, wherever the view is, the history buffer, the cursor, the view and the screen are those of the document with that character |
| `Vga.Console.Write` | src/vga.c:176-180 | the same for any text |
| `Vga.Console.Clear` | src/vga.c:186-197 | from any state, an empty document of one blank row in the present colour, shown |
| `Vga.Console.constructor` | src/vga.c:114-125 | initialization shows an empty document, light grey on black |
| `Vga.Console.SetColor` | src/vga.c:127 | a new colour leaves the screen as it was rendered |
| `Vga.Console.ScrollView` | src/vga.c:201-215 | the view moves by the given rows within the retained ones, and the screen agrees |
| `Vga.Console.ScrollToBottom` | src/vga.c:217-221 | the view shows the newest rows, and the screen agrees |
| `Vga.Console.PutEntry` | src/vga.c:129-138 | one visible cell is overwritten in document and screen; a cell outside the content or below the document's end changes neither |
| `KeyboardModel.DecoderMeaning` | src/keyboard.c:35-73 | for every stream of scancodes, the prefix flag is set exactly after a prefix, and shift exactly when the last shift code that does not follow a prefix is a press |
| `KeyboardModel.ArrowKeys` | src/keyboard.c:41-64 | after any stream that ends in a prefix, the codes of the four arrow keys add their events, and every other code adds none |
| `KeyboardModel.KeyTypes` | src/keyboard.c:79-90 | after any other stream, the code of a key of the US layout, given row by row, adds the event of its character, the shifted one exactly while a shift key is held |
| `KeyboardModel.OtherCodesSilent` | src/keyboard.c:66-90 | and every code that is in no row of the layout, releases and shift keys among them, adds no event |
| `KeyboardModel.EnqueuePending` | src/keyboard.c:27-33 | an event is enqueued exactly when fewer than 255 are pending, then comes last, and the slot at the tail is untouched |
| `KeyboardModel.AdvancePending` | src/keyboard.c:102-103 | moving the tail takes away exactly the oldest pending event |
| `KeyboardModel.StepKeeps` | src/keyboard.c:27-105 | an interrupt in any phase of the consumer, and each of the consumer's three steps, keep: delivered events and pending ones together are the accepted ones in order, and the slot being read stays as read |
| `KeyboardModel.NothingLost` | src/keyboard.c:27-105 | under every interleaving from a reset: delivered followed by pending is what was accepted, in order; at most 255 are pending; a decoded event is dropped exactly when 255 are pending; the event being read is still in its slot |
| `KeyboardModel.TakenAll` | src/keyboard.c:27-33 | when the ring was never full, every decoded event was accepted |
| `KeyboardModel.GetTakesOldest` | src/keyboard.c:97-105 | with input, checking, reading and advancing deliver the oldest pending event and leave the others pending in order; without input, checking changes nothing |
| `KeyboardModel.Reset` | src/keyboard.c:133-138 | a reset establishes the invariant, whatever the slots hold |
| `KeyboardDriver.Driver.constructor` | src/keyboard.c:133-138 | a reset driver has an idle decoder and an empty ring |
| `KeyboardDriver.Driver.DecodeScancode` | src/keyboard.c:35-91 | the branches update the two flags and produce the event that the decoder's specification says, for every byte |
| `KeyboardDriver.Driver.QueueEvent` | src/keyboard.c:27-33 | the ring and its head change as enqueueing says |
| `KeyboardDriver.Driver.ProcessScancode` | src/keyboard.c:35-91 | the interrupt handler is one step of the machine, whatever the consumer is in the middle of |
| `KeyboardDriver.Driver.HasInput` | src/keyboard.c:95 | there is input exactly when an event is pending |
| `KeyboardDriver.Driver.GetEvent` | src/keyboard.c:97-105 | the call waits exactly as long as nothing is pending, interrupts running meanwhile, and then returns and removes the oldest pending event |
| `KeyboardDriver.Driver.AdvanceTail` | src/keyboard.c:102-104 | the consumer's last step returns the event read before, also when interrupts came between |
| `CommandLine.WordsExact` | src/shell.c:82-117 | the words found are exactly the maximal stretches without spaces, in order |
| `CommandLine.Parse` | src/shell.c:82-120 | in place: the command and up to 16 arguments are the first words of the line, in order, and exactly one space after each becomes a NUL; a line of spaces gives the empty command at its end and changes nothing |
| `CommandLine.CutHolds` | src/shell.c:95-115 | each word that was cut is then a NUL-terminated string of its own |
| `CommandLine.Echo` | src/shell.c:153-161 | the arguments with single spaces between, and a line break |
| `CommandLine.JoinTidy` | src/shell.c:153-161 | what is joined of the words of a line with single spaces between them and none around them is that line |
| `CommandLine.EchoParsesBack` | src/shell.c:82-161 | what `echo` prints of a line's arguments, after any one-word command, is split into that command and the same arguments |
| `ShellModel.HistoryMeaning` | src/shell.c:48-66 | after any lines the history is the newest 32 of the accepted ones |
| `ShellModel.AcceptedMeaning` | src/shell.c:48-58 | the accepted lines are those submitted that are not empty, no two neighbours are equal, and a line that is not empty is the newest after it was submitted |
| `ShellModel.Session` | src/shell.c:461-563 | whatever keys are pressed: the cursor stays within 255, the buffer holds a NUL, and the history is that of the submitted lines |
| `ShellModel.StepWellFormed` | src/shell.c:471-548 | every key keeps the editor's invariant |
| `ShellModel.TypingEditsDraft` | src/shell.c:514-547 | typed characters and erasures edit what stands before the cursor as a string of at most 255, also when they start from a line of the history; the history itself stays, and the buffer's string is then the draft up to its first NUL |
| `ShellModel.TypedLineSubmitted` | src/shell.c:514-550 | Enter after any typing submits the edited draft, up to its first NUL |
| `ShellModel.UpsMeaning` | src/shell.c:486-498 | going up from a fresh line puts its buffer aside once and stops at the oldest line |
| `ShellModel.UpsShow` | src/shell.c:486-498 | k steps up from a fresh line show the k-th newest line of the history, with the cursor at its end, the oldest when there are not as many |
| `ShellModel.DownsShow` | src/shell.c:500-512 | k steps down from inside the history show the line k places newer, while there is one |
| `ShellModel.DownsMeaning` | src/shell.c:500-512 | going down reaches the fresh line, with what was put aside, and stops there |
| `ShellModel.UpDownRestores` | src/shell.c:486-512 | for every k, k times up and k times down restore draft and cursor if and only if k is 0, the history is empty, or the buffer's string ends at the cursor |
| `ShellModel.CutString` | src/shell.c:82-118 | the string at the start of the buffer that the parser leaves is the line up to the end of its first word |
| `ShellModel.FreshPromptShowsStaleCommand` | src/shell.c:464-512 | at the prompt after any submitted line, k times up and k times down put that line, up to the end of its first word, before the cursor, for every k above 0 |
| `Shell.RingFilled` | src/shell.c:39-65 | overwriting the ring's next row turns the newest 32 lines into the newest 32 with one more |
| `Shell.Editing.constructor` | src/shell.c:28-32 | zeroed buffers are the fresh editor |
| `Shell.Editing.HistoryGet` | src/shell.c:39-46 | the string at the computed row is the p-th oldest line of the history |
| `Shell.Editing.HistoryAdd` | src/shell.c:48-66 | the ring holds the history with the line added, unless it is empty or repeats the newest |
| `Shell.Editing.SetBufferFrom` | src/shell.c:68-80 | the buffer holds the first 255 characters of the other string with the cursor at their end, the rest being as it was |
| `Shell.Editing.HandleUp` | src/shell.c:486-498 | the buffers, the cursor and the position are those of one step up |
| `Shell.Editing.HandleDown` | src/shell.c:500-512 | the buffers, the cursor and the position are those of one step down |
| `Shell.Editing.HandleErase` | src/shell.c:525-536 | the buffers, the cursor and the position are those of one erasure |
| `Shell.Editing.HandleCharacter` | src/shell.c:538-547 | the buffers, the cursor and the position are those of one typed character |
| `Shell.Editing.HandleEnter` | src/shell.c:519-555 | the line is added to the history, the buffer is cut up by the parser, and the next prompt starts with the cursor at 0 and the cut buffer in place; the command and the arguments handed to execution are strings in the buffer, the words of the draft in order, at most 16 after the command |
| `Shell.Editing.HandleKey` | src/shell.c:471-548 | every key changes buffers, ring, cursor and position as the editor's specification says, and keeps the invariant |
| `KString.MemCpy` | src/kstring.c:3-12 | the destination range gets the source range and nothing else changes; when the destination starts inside the source of the same buffer, it gets the source's first elements over and over |
| `KString.MemMove` | src/kstring.c:14-31 | the same inside one buffer for every overlap |
| `KString.StrLen` | src/kstring.c:43-51 | the length of the string before the first NUL |
| `KString.StrCmp` | src/kstring.c:53-60 | zero exactly for equal strings, negative exactly when the first comes first in lexicographic order |
| `KString.ParseU64` | src/kstring.c:72-89 | stores a value exactly when both pointers are there and the string is a non-empty one of digits, and it is their value modulo 2^64 |
| `KString.ConvertU64` | src/kstring.c:91-122 | in base 10 and 16, the longest leading part of the numeral that fits is written with its NUL, and nothing behind it; a buffer of size 0 is left alone |
| `KString.NumeralFits` | src/kstring.c:93-113 | every 64-bit value has at most 20 digits, so the scratch array of 32 never fills |
| `KString.NumeralDigits` | src/kstring.c:110-126 | the decimal numeral of every number consists of digits and has that number as its value |
| `KString.NumeralHex` | src/kstring.c:91-130 | the hexadecimal numeral of every number consists of the digits 0 to 9 and A to F, has that number as its value, and no leading zero |
| `KString.NumeralOfValue` | src/kstring.c:72-126 | formatting the value of a digit string without leading zeros gives the string back |
| `KString.FormatParse` | src/kstring.c:72-126 | every 64-bit value formatted into 21 bytes parses back to itself |

## Left out

- Heap.HeapAllocator.Kmalloc: requests above 2^64 - 32 bytes, for which the rounding itself wraps around, are excluded; `Heap.RequestArithmetic` proves that this is the exact bound. Block sizes and addresses come from frames below 1 GiB and are modelled without a width.
- Heap.HeapAllocator.Kfree: in place, the pointer must be null or the payload of a linked header, as headers are objects that cannot overlap. The release of a header that is not in the list is modelled on values, `HeapStale.StaleKfree`: what its bytes hold where no listed header covers the flag is any value, and what happens after a link was destroyed is not described.
- Frames.InitialFreeMeaning: boot information with a range that runs past the end of the 64-bit address space, a kernel that ends before it starts, or a range for which the page rounding wraps around is excluded; for single ranges `Frames.FreedByMeaning` and `Frames.ReservedByMeaning` give the exact condition of the last, and `Pmm.FrameAllocator.Init` follows the code for all of them.
- HeapRuns.Conservation: `used_bytes` is an integer without a width; the lemma says exactly when the unsigned difference reported as free bytes would wrap around.
- Payload contents, `kcalloc` and its multiplication.
- KString.MemCpy: copies array elements, not the bytes of one.
- Vga.Console.ScrollView: a delta that would overflow a signed 32-bit sum is excluded.
- Vga.Console.constructor: the screen buffer is bound once; `vga_bind_buffer` afterwards is not modelled, nor the default address.
- Vga.Console.SyncViewport: its branch for a view below the bottom is proved unreachable, and is an assertion.
- KeyboardDriver.Driver.GetEvent: the halt instruction itself; the scancodes that arrive while the consumer waits are a parameter, and the call has no result when they run out first.
- Characters are Dafny characters; signed `char` matters in none of the functions modelled, except that the document keeps only the low byte.
- `keyboard_getchar`, `keyboard_get_line`, serial input and the merging of both in `src/input.c`: thin loops over the events.
- The shell's echo of keys to the screen, the view keys LEFT and RIGHT, prompts, colours, command lookup and all commands but `echo`: user interface.
- `kmemset`, `kstrncmp`, `pmm_alloc_frame`, `pmm_free_frame` and the byte getters: easy members next to what is modelled.
- Boot code, descriptor tables, interrupt controller, RTC, PCI, CPU identification, serial port, panic and shutdown: hardware access.
