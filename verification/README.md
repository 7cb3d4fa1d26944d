# narthex: proofs about its core

Narthex is a C runtime library. This project models the parts of it that carry the most
reasoning and proves what they are for:

* **The free-list allocator** (`modules/allocator/free_list.c`). Memory is an array of 16-byte
  chunks. A block's header (`next`, and the size and span index of its `key`) lives in the chunk
  the block starts at, so a header write spoils the payload there and a payload write spoils the
  header; the class walks and relinks those headers as the source does, through `prev`, `cur` and
  `last_ptr`. Each operation is proved to act on the two lists as a function of `FreeListSpec`,
  and the theorems are about those functions, over every run. `FreeListTags` follows the list past
  the 65536 spans that a header's tag can tell apart.
* **The logger** (`src/nth_log.c`): reserve a slice under the lock, fill it outside, count out;
  a flusher holds the lock and waits. Any number of threads, one shared access a step,
  byte-by-byte writes in any order. A class gives the same calls as one thread executes them.
* **Paths** (`src/nth_path.c`, POSIX branches): one buffer normalised in place by a read and a
  write cursor with a rewind stack, against "split, resolve, join", and against what a path means.
* **Civil time** (`src/nth_time.c`): day numbers and dates, with C's truncating division and
  32-bit wrapping written out, and the calendar conversions built on them.
* **The multi-span arena** (`modules/allocator/dyn_arena.c`) with its marks, and the 64-bit
  alignment arithmetic both allocators use (`include/narthex/inl/align.h`).
* **The compute-once cache** (`fs_cached_get` in `modules/filesystem/system.c`) on the life-cycle
  word (`include/narthex/inl/lifecycle.h`), for any number of threads.

`*_spec` files say what the operations mean, `*_theorems` what follows from it, and the file
named after the component holds its imperative form. Run `dafny verify dfyconfig.toml`.

## Where the code falls short of its promise

Each of these is proved, with the condition under which the promise is kept.

* A free-list request above 2^64 - 16 bytes wraps when rounded up and can succeed with an empty
  payload (`FreeListTheorems.PayloadHoldsIff`, `FreeListTheorems.HugeRequestWraps`).
* Reallocating to such a size copies the old payload over whatever follows the new block, unless the
  old block holds no more than the new one (`FreeListTheorems.CopyFitsIff`). After two calls on a
  fresh page the copy runs over the header of the free list (`FreeListTheorems.ReallocOverwrites`),
  so the theorems about runs are about runs whose copies fit.
* A free-list tag holds 16 bits of span index, so spans whose indices agree modulo 65536 share one.
  Their blocks can never be merged exactly when the regions carved from the two spans are not next to
  each other (`FreeListTags.SpansNeverMergeIff`). With any number of spans, if none is added next to
  one of its tag, no call ever makes a block that holds memory of two spans
  (`FreeListTags.NeverTwoSpans`); clearing the list keeps spans apart exactly under that condition
  (`FreeListTags.ClearKeepsApartIff`). Otherwise the merge may come at once or with a later free, and
  giving the span back then leaves its memory on the list (`FreeListTags.MergesLater`).
* An instant in the last two or three days at either end of the 64-bit range converts to a
  calendar that does not convert back (`Instants.InstantRoundTrip`,
  `Instants.LastInstantTraps`), and fields of the time of day out of range are not checked and can
  overflow the sum (`Instants.OverflowIff`).
* An arena mark holds 16 bits of span index; the 65537th span's mark is the first one's
  (`DynArenaTheorems.MarkRoundTripIff`, `DynArenaTheorems.MarkOfSpan65536`).
* Appending an absolute path to the empty path is not the same as appending it to the normal form
  of the empty path (`PathTheorems.AppendNormalizedIff`, `PathTheorems.AppendToEmptyDiffers`).
* The comment at `src/nth_path.c:452` says that with trailing separators the whole trimmed path is
  the directory. For a single name such as `a/` the code returns an empty directory
  (`PathTheorems.TrailingSeparators`, `PathTheorems.DirectoryOfOneName`); the model follows the code.
* Normalising a path deeper than the rewind stack can grow leaves it half rewritten, flagged invalid and
  not flagged normalised; this happens exactly when more real components are held at once than there
  is room for (`PathObject.Path.Normalize`). A path of n names is too deep exactly when n exceeds what
  the stack holds after growing; seventeen are when it cannot grow (`PathObject.DeepPathIff`).

## Model

| member | source | states |
|---|---|---|
| Align.IsPow2Iff | include/narthex/inl/align.h:12-14 | The bit trick accepts exactly the powers of two |
| Align.AlignPadLeast | include/narthex/inl/align.h:20-23 | The wraparound pad of any 64-bit address is the least one that aligns it |
| Align.AlignedIff | include/narthex/inl/align.h:15-18 | Masking tests divisibility by a power-of-two alignment |
| Align.AlignUpIsPadded | include/narthex/inl/align.h:25-31 | Rounding up is adding the least pad, whenever the asserted bound holds |
| Align.AlignDownIs | include/narthex/inl/align.h:32-36 | Rounding down removes exactly the remainder |
| PackedWords.KeyFields | modules/allocator/free_list.c:21-36 | A key field reads back what was set exactly when it fits its bits, and setting it leaves the other field alone |
| PackedWords.KeyIsItsFields | modules/allocator/free_list.c:82-83 | The two setters determine a key whatever the raw memory held |
| PackedWords.PutGet | modules/allocator/free_list.c:33-36 | Clearing and or-ing in a shifted, masked value is read back modulo the field's size |
| PackedWords.PutKeeps | modules/allocator/free_list.c:33-36 | Setting a field is not seen through any field above or below it |
| PackedWords.LenField | src/nth_path.c:35-38 | Length reads back exactly when it fits 16 bits; capacity, flags and magic stay |
| PackedWords.CapField | src/nth_path.c:36-39 | Capacity reads back exactly when it fits 16 bits; length, flags and magic stay |
| PackedWords.FlagField | src/nth_path.c:43-45 | Setting or clearing a flag changes that flag only |
| PackedWords.HasIsBit | src/nth_path.c:43 | The test of a flag, which does not mask the magic number away, reads just that bit |
| PackedWords.MetaReads | src/nth_path.c:98-140 | Everything a set-up packs into the meta word reads back |
| Blocks.AddFreeCanonical | modules/allocator/free_list.c:39-71 | Inserting and coalescing keeps the list sorted, non-overlapping and with no two touching blocks of a span, and adds exactly the block's chunks |
| Blocks.CanonicalUnique | modules/allocator/free_list.c:39-71 | Two canonical lists covering the same chunks of the same spans are equal |
| Blocks.StandsAloneIff | modules/allocator/free_list.c:57-70 | An inserted block is merged exactly when it touches a block of its span |
| FreeListSpec.PadOf | modules/allocator/free_list.c:72-81 | The pad the carver computes on wrapped words is the arithmetic residue |
| FreeListSpec.CarveInside | modules/allocator/free_list.c:72-90 | A carved region is non-empty, inside its span, wastes less than a chunk at either end and fits the size field |
| FreeListSpec.CarveIff | modules/allocator/free_list.c:72-90 | A carved region is every 16-byte aligned chunk that lies whole in the span, and nothing else |
| FreeListSpec.CarvableIff | modules/allocator/free_list.c:73-77 | A span is accepted exactly when some aligned chunk lies whole in it and the size field can count it |
| FreeListInvariant.FreeCovers | modules/allocator/free_list.c:39-71 | A chunk of a region is free exactly when it is not in use |
| FreeListInvariant.InvSetup | modules/allocator/free_list.c:485-506 | Setup establishes the invariant |
| FreeListInvariant.InvGrow | modules/allocator/free_list.c:124-150 | Growing by a disjoint span keeps the invariant, for the spans that a tag can tell apart |
| FreeListInvariant.InvFirstFit | modules/allocator/free_list.c:198-226 | Allocation keeps the invariant, on the split and on the whole-block path |
| FreeListInvariant.InvFree | modules/allocator/free_list.c:304-331 | Freeing any address keeps the invariant |
| FreeListInvariant.InvClear | modules/allocator/free_list.c:332-345 | Clearing rebuilds a heap that satisfies the invariant |
| FreeListInvariant.InvShrink | modules/allocator/free_list.c:151-197 | Giving a span back keeps the invariant, the free list still canonical |
| FreeListTheorems.InvRun | modules/allocator/free_list.c:124-378 | Every sequence of grow, shrink, first fit, free, clear and reallocations whose copy fits keeps the invariant |
| FreeListTheorems.RunFromSetup | modules/allocator/free_list.c:39-378 | After any such run from setup the free and used blocks hold, once each, exactly the aligned chunks that lie whole in some span |
| FreeListTheorems.PayloadIsPrivate | modules/allocator/free_list.c:112-118 | A live payload chunk is in no other block and is no block's header |
| FreeListTheorems.KeyFits | modules/allocator/free_list.c:128 | Every size and span index stays within its 48 or 16 bits |
| FreeListTheorems.KeyReadsBack | modules/allocator/free_list.c:80-83 | So the packed header of every block reads back as that block |
| FreeListTheorems.FreeDetermined | modules/allocator/free_list.c:39-71 | The free list is determined by the spans and the chunks in use |
| FreeListTheorems.FreeOrderIrrelevant | modules/allocator/free_list.c:304-331 | The order of frees, repeats, and frees of dead addresses never matter |
| FreeListTheorems.FreeAllIsClear | modules/allocator/free_list.c:332-345 | Freeing all live blocks in any order gives exactly the heap clearing builds |
| FreeListTheorems.FirstFitThenFree | modules/allocator/free_list.c:91-118 | Freeing what first fit just returned restores both lists exactly |
| FreeListTheorems.FirstFitFailsIff | modules/allocator/free_list.c:198-226 | NULL exactly when no span has a long enough run of free chunks, and then nothing changes |
| FreeListTheorems.FirstFitIsLowest | modules/allocator/free_list.c:198-226 | Otherwise the start of the lowest sufficient maximal run, taking the need and at most one chunk more |
| FreeListTheorems.FirstFitTakes | modules/allocator/free_list.c:91-118 | From that run it takes just the need, and the whole run only when less than a header and a payload chunk would be left |
| FreeListTheorems.FirstFitGives | modules/allocator/free_list.c:91-226 | The bytes asked for are aligned, in one span, behind a header, and every chunk of them was free |
| FreeListTheorems.PayloadHoldsIff | modules/allocator/free_list.c:18 | The payload holds the request exactly when rounding up does not wrap, and then wastes under two chunks |
| FreeListTheorems.HugeRequestWraps | modules/allocator/free_list.c:18 | The wrap is reached by a 2^64 - 1 byte request on a fresh page |
| FreeListTheorems.CopyFitsIff | modules/allocator/free_list.c:366-373 | A reallocation copies inside its new block exactly when the size does not wrap or the old payload is as small as the new one; the latter read off the first free block |
| FreeListTheorems.ReallocOverwrites | modules/allocator/free_list.c:366-373 | After one allocation on a fresh page, a reallocation to 2^64 - 1 bytes copies over the header of the free list |
| FreeListTheorems.ShrinkRefusesIff | modules/allocator/free_list.c:151-197 | Shrink refuses exactly when there is no span or a live block belongs to the last one; otherwise gives that span back and keeps the rest |
| FreeListTheorems.GrowThenShrink | modules/allocator/free_list.c:124-197 | Growing and shrinking restores the heap and returns the same span |
| FreeListTags.TagReadsBack | modules/allocator/free_list.c:30-36 | The tag written for a span is its index modulo 65536, and the size stays |
| FreeListTags.SpansNeverMergeIff | modules/allocator/free_list.c:57-70 | Two disjoint spans under one tag have no blocks that can ever be merged exactly when the regions carved from them are not adjacent |
| FreeListTags.InvGrow | modules/allocator/free_list.c:124-150 | Growing keeps the invariant at any span index, under the tag that is written, if the new region touches none of that tag |
| FreeListTags.InvRun | modules/allocator/free_list.c:124-378 | So does every sequence of grow, shrink, first fit, free, clear and reallocations whose copy fits, on any number of spans |
| FreeListTags.NeverTwoSpans | modules/allocator/free_list.c:39-378 | From setup on, no block ever holds memory of two spans, and the two lists hold every chunk of every region without overlap |
| FreeListTags.ClearKeepsApartIff | modules/allocator/free_list.c:332-345 | Clearing leaves each block in one span exactly when no two regions of one tag are adjacent; two that are end up in one block |
| FreeListTags.AgreesBelowLimit | modules/allocator/free_list.c:124-150 | Up to 65536 spans, growing and clearing under tags are the calls of the theorems above |
| FreeListTags.SameInvariantBelowLimit | modules/allocator/free_list.c:21-36 | Up to 65536 spans this invariant is the one of the theorems above |
| FreeListTags.GrowPastLimit | modules/allocator/free_list.c:140-147 | What growing does at once: the new block is merged exactly when it touches a free block of its tag; a later call may still merge it |
| FreeListTags.MergesLater | modules/allocator/free_list.c:176-188 | The 65537th span beside a full first one: freeing the first merges both, and giving the span back then strips nothing |
| FreeListTheorems.ReallocUsed | modules/allocator/free_list.c:356-378 | In the lists, realloc replaces the block and keeps all others, or changes nothing |
| FreeListTheorems.ReallocIff | modules/allocator/free_list.c:356-378 | It fails exactly when no run is long enough for a new block beside the old one, and else the new block is the lowest that fits |
| FreeListTheorems.ReallocEdges | modules/allocator/free_list.c:356-364 | Of the null pointer it is an allocation that freeing undoes; to no bytes it takes the block from the live ones and answers null |
| FreeListAllocator.SetUp | modules/allocator/free_list.c:485-506 | The in-memory lists after setup are those of the specification; without memory nothing is written |
| FreeListAllocator.FreeList.CarveSpan | modules/allocator/free_list.c:72-90 | Writes one header, at the first aligned chunk, holding the span's size in chunks and its index |
| FreeListAllocator.FreeList.AddFreeBlock | modules/allocator/free_list.c:39-71 | The walk, the links and both merges leave in memory the specified list, touching no header outside it |
| FreeListAllocator.FreeList.Alloc | modules/allocator/free_list.c:91-123 | Splitting or unlinking and pushing leave both lists as specified and every live payload intact |
| FreeListAllocator.FreeList.FirstFit | modules/allocator/free_list.c:198-226 | Result and both lists as specified, every live payload intact; on NULL no byte of memory changes |
| FreeListAllocator.FreeList.Free | modules/allocator/free_list.c:304-331 | Lists as specified, other payloads intact; an address that is not live changes nothing |
| FreeListAllocator.FreeList.Clear | modules/allocator/free_list.c:332-345 | Rebuilds the specified lists in memory |
| FreeListAllocator.FreeList.Grow | modules/allocator/free_list.c:124-150 | Fails only when the span table is full and cannot be enlarged; else lists as specified, payloads intact |
| FreeListAllocator.FreeList.AnyLive | modules/allocator/free_list.c:164-174 | The first walk finds whether a live block lies in the last span or carries its index |
| FreeListAllocator.FreeList.Shrink | modules/allocator/free_list.c:151-197 | Both walks leave the specified lists and return the specified span, payloads intact |
| FreeListAllocator.FreeList.Store | modules/allocator/free_list.c:112-118 | A store into a live payload disturbs neither list |
| FreeListAllocator.FreeList.Realloc | modules/allocator/free_list.c:356-378 | Whenever the copy fits: on success the first min(old room, new size) bytes and all other payloads are kept; on failure memory is unchanged |
| LogProtocol.LineContent | src/nth_log.c:99-122 | A line is the stamp, the level in brackets, a dash, what the buffer can hold of the message, and a newline |
| LogProtocol.LevelNames | src/nth_log.c:99-106 | The level is shown by the characters of its name, FTL, ERR, WRN, MSG or DBG |
| LogTheorems.InvInit | src/nth_log.c:284-290 | The initial state satisfies the protocol's invariant |
| LogTheorems.InvReserve | src/nth_log.c:202-203 | A new slice lies past every other and its line joins the pending text whole |
| LogTheorems.InvWrite | src/nth_log.c:208-210 | Writing a byte of one's slice settles that position and disturbs no other |
| LogTheorems.InvCountOut | src/nth_log.c:212 | The count never drops below the writers still at work |
| LogTheorems.InvEmit | src/nth_log.c:162-169 | Emission, with the lock and no writer counted, hands over whole lines only |
| LogTheorems.InvStep | src/nth_log.c:162-260 | Every step of every thread keeps the invariant |
| LogTheorems.NothingTornOrLost | src/nth_log.c:162-260 | Over every interleaving the sink has received the first lines whole, in reservation order, and with no writer left sink and buffer together are all lines |
| LogTheorems.RunLines | src/nth_log.c:176-216 | The lines of a run are those of its reservations, one each, in order; where their stamps come from is the next row |
| LogRuns.LinesShowTheClock | src/nth_log.c:190-203 | Over every interleaving a line begins with the text of the latest reading, its own included, that was later than all before it; or with the initial stamp |
| LogTheorems.LoggedAsAsked | src/nth_log.c:176-216 | Each thread's messages are logged exactly once and in its own order, save the one in hand |
| LogTheorems.StoresInBounds | src/nth_log.c:208-210 | Every store lies in the buffer, in one's own slice and in nobody else's |
| LogRuns.WritesForCause | src/nth_log.c:193-216 | Over every interleaving nothing is written out but for a line that the buffer has no room for, by a flush asked for, or at the end of a call where every call flushes |
| LogProgress.DrainStep | src/nth_log.c:162-163 | While a thread waits, each writer's step takes one off the remaining work, others none, and the lock stays put |
| LogProgress.DrainNeverStuck | src/nth_log.c:162-163 | While it waits some writer has a step that needs no lock; the wait ends exactly when no work is left |
| LogProgress.DrainEnds | src/nth_log.c:162-163 | However the others are scheduled, writer steps done plus work left is constant, and the wait is over when they have taken them all |
| LogProgress.NeverStuck | src/nth_log.c:176-260 | No reachable state with a busy thread is deadlocked |
| LogProgress.FlushCovers | src/nth_log.c:214-260 | When a flush has returned, every line reserved before it took the lock is in the sink; when every call flushes, so is a finished call's own |
| Log.Logger.Init | src/nth_log.c:267-293 | Refuses exactly the sizes with no room for the fixed parts, and then keeps the buffer it had; out of memory leaves none |
| Log.Logger.WritePrefix | src/nth_log.c:99-122 | Writes the 28-byte prefix in place and nothing else |
| Log.Logger.FillLine | src/nth_log.c:208-210 | Prefix, message and newline land in the slice and nowhere else |
| Log.Logger.Flush | src/nth_log.c:162-169 | Everything buffered goes to the sink, in order |
| Log.Logger.Append | src/nth_log.c:176-216 | The stream grows by exactly the message's line; what is written out, and when, is fixed |
| PathTheorems.NormalizeKeepsMeaning | src/nth_path.c:239-322 | A path and its normal form lead to the same place from every directory |
| PathTheorems.NormalFormsAgree | src/nth_path.c:239-322 | Two paths have equal normal forms exactly when they agree from every directory |
| PathTheorems.NormalizeIdempotent | src/nth_path.c:226-322 | Normalising twice is normalising once |
| PathTheorems.NormalizeReads | src/nth_path.c:226-322 | Absoluteness is kept, and the normal form's components are the resolved ones |
| PathTheorems.NormalShape | src/nth_path.c:270-321 | A normal path is not empty, has no doubled separator and ends in one only as the root |
| PathShortest.NormalizeShortens | src/nth_path.c:226-322 | Normalising never makes a path longer, and what it does not shorten is normal already |
| PathShortest.NormalIsShortest | src/nth_path.c:226-322 | The normal form is the one shortest non-empty path that leads from every base where the path leads |
| PathTheorems.WalkAppend | src/nth_path.c:203-224 | Appending to a non-empty path is walking on from where it leads |
| PathTheorems.AppendNormalizedIff | src/nth_path.c:203-224 | Normalising before an append makes no difference, except exactly for an absolute path appended to the empty one |
| PathTheorems.AppendToEmptyDiffers | src/nth_path.c:203-224 | Appending "/x" to the empty path and to its normal form give different paths |
| PathTheorems.AppendBytes | src/nth_path.c:211-220 | The appended bytes follow the path, after a separator exactly when it is not empty and does not end in one |
| PathTheorems.AppendNoDouble | src/nth_path.c:211-220 | Appending a relative path never doubles a separator |
| PathTheorems.DirectoryAndFilename | src/nth_path.c:402-458 | A path not ending in a separator is its directory, separators and its file name, which is one name |
| PathTheorems.DirectoryEnds | src/nth_path.c:431-451 | That directory is empty exactly when there is no separator, and ends in one only as the root |
| PathTheorems.ReassembleNormalizes | src/nth_path.c:402-458 | Appending the file name to the directory normalises to the same path |
| PathTheorems.ReassembleNormal | src/nth_path.c:402-458 | On a normal path other than the root it gives the path back byte for byte |
| PathTheorems.TrailingSeparators | src/nth_path.c:427-457 | With trailing separators there is no file name, and the directory is the trimmed path exactly when that holds a separator |
| PathTheorems.OnlySeparators | src/nth_path.c:402-430 | A path of separators only names no file; its directory is the root, or empty for the empty path |
| PathTheorems.DirectoryOfOneName | src/nth_path.c:438-441 | The directory of "a/" is empty |
| PathTheorems.StemAndExtension | src/nth_path.c:459-494 | A file name is its stem and its extension; when there is an extension and when there is none |
| PathObject.Path.MetaReadsBack | src/nth_path.c:17-49 | In every live path the fields fit the meta word and read back from it |
| PathObject.Path.Setup | src/nth_path.c:98-116 | A fresh path is empty and flagged normalised; a live one is refused |
| PathObject.Path.SetupFrom | src/nth_path.c:117-162 | A fresh path holds the string, not flagged; a live one is refused |
| PathObject.GrownCap | src/nth_path.c:75-79 | Grows by half at least, short of the 16-bit ceiling, and by more only to what is needed |
| PathObject.Path.Reserve | src/nth_path.c:63-92 | Room is made or the sticky flag is set; the content stays either way |
| PathObject.Path.SetN | src/nth_path.c:182-195 | The content becomes the string and the flag is cleared, or nothing changes but the sticky flag |
| PathObject.Path.AppendN | src/nth_path.c:203-224 | The content becomes the joined path, or nothing changes but the sticky flag |
| PathObject.Path.Clear | src/nth_path.c:323-331 | Empty, flagged normalised, sticky flag cleared |
| PathObject.Path.Copy | src/nth_path.c:332-349 | Content and flag become the source's, and the source keeps its own |
| PathObject.DeepPathIff | src/nth_path.c:291-305 | A path of n names fits the stack exactly when n is at most what it holds after growing; seventeen do not fit a stack that cannot grow |
| PathObject.Path.Pass | src/nth_path.c:270-311 | One pass resolves one segment, or stops exactly when the stack is full and cannot grow; the write cursor stays behind the unread text, which stays original |
| PathObject.Path.Rewrite | src/nth_path.c:270-311 | The whole loop leaves the rendering of the resolved components of the original text, exactly when the stack suffices |
| PathObject.Path.Normalize | src/nth_path.c:226-322 | The in-place rewrite computes the normal form exactly when the stack can be had and suffices, and is flagged invalid otherwise; a flagged path is left alone, as its content is already normal or empty |
| PathObject.Path.Filename | src/nth_path.c:402-418 | The scan finds the specified file name, whose view is null exactly when it is empty |
| PathObject.Path.Directory | src/nth_path.c:419-458 | The scans find the specified directory, whose view is never null |
| PathObject.Path.Extension | src/nth_path.c:459-483 | The scan finds the specified extension, whose view is null exactly when it is empty |
| PathObject.Path.Stem | src/nth_path.c:484-494 | The file name without its extension; a null view exactly when there is no file name |
| CivilTime.DaysFromCivilIs | src/nth_time.c:26-33 | Truncation and 32-bit wrapping never show: the day number is the floor-division formula |
| CivilTime.YearOfEraIs | src/nth_time.c:38-41 | The divisions by 1460, 36524 and 146096 find the year a day of an era falls in |
| CivilTheorems.Ranges | src/nth_time.c:29-44 | Every intermediate result lies in the range noted beside it |
| CivilTheorems.NumberOrders | src/nth_time.c:26-33 | Day numbers order dates as the calendar does |
| CivilTheorems.NumberOfNext | src/nth_time.c:26-33 | The calendar's next date, by the 4/100/400 rule, has the next number |
| CivilTheorems.CivilThenDays | src/nth_time.c:35-49 | Every integer names a valid date whose number it is |
| CivilTheorems.DaysThenCivil | src/nth_time.c:26-49 | Every valid date comes back from its number |
| CivilTheorems.Successor | src/nth_time.c:35-49 | Day zero is 1970-01-01, and one day on is the next date of the calendar |
| CivilTheorems.CountsDays | src/nth_time.c:35-49 | The conversion counts the days of the calendar from any day on |
| CivilTheorems.Weekdays | src/nth_time.c:51-55 | Weekdays follow one another, with day zero a Thursday, before it as after |
| CivilTheorems.YearDay | src/nth_time.c:103 | The day of the year is the days of the months gone by |
| Instants.ToCalendarIs | src/nth_time.c:78-104 | No cast loses anything: the fields are those of the floored day and of the time in it |
| Instants.ToCalendarWellFormed | src/nth_time.c:78-104 | Every 64-bit instant gives fields in range that agree with one another |
| Instants.InstantRoundTrip | src/nth_time.c:157-170 | There and back is the identity exactly on the days the assertion admits, and trapped elsewhere |
| Instants.LastInstantTraps | src/nth_time.c:166 | The last 64-bit instant does not convert back |
| Instants.CalendarRoundTrip | src/nth_time.c:78-170 | Back and there is the identity exactly on well-formed calendars |
| Instants.DateAndTimeComeBack | src/nth_time.c:78-170 | A real date and time of day become the instant of that date and time, whatever the weekday and day of the year hold |
| Instants.FieldsNotRead | src/nth_time.c:157-170 | Weekday, day of the year and offset make no difference |
| Instants.FieldsAddUp | src/nth_time.c:168-169 | Within a month each field adds its own length of time, in range or not |
| Instants.AcceptedIff | src/nth_time.c:160-169 | With a time of day in range a calendar is accepted exactly within the month, day and day-number bounds, and never overflows |
| Instants.TrapIff | src/nth_time.c:160-166 | Exactly the month, the day and the day number are asserted |
| Instants.OverflowIff | src/nth_time.c:168-169 | Exactly when the unchecked fields overflow, with an example |
| Instants.DatesFollowInstants | src/nth_time.c:78-104 | Later instants never have earlier dates |
| Instants.PosixEpoch | src/nth_time.c:78-104 | From 1970 on the fields give the whole seconds by the formula of section 4.16 of IEEE Std 1003.1-2017 XBD |
| DynArenaSpec.FirstFit | modules/allocator/dyn_arena.c:103-108 | The first later span with room, if any |
| DynArenaTheorems.FitsIff | modules/allocator/dyn_arena.c:93-97 | The 64-bit test is exact, and the padded address is the lowest aligned place |
| DynArenaTheorems.AllocIff | modules/allocator/dyn_arena.c:82-124 | NULL exactly when neither the rest of the current span nor any later span has an aligned place; else the lowest place of the first that has |
| DynArenaTheorems.AllocKeeps | modules/allocator/dyn_arena.c:110-118 | Swaps touch spans above the current one only, and permute them |
| DynArenaLayout.AllocEnds | modules/allocator/dyn_arena.c:93-118 | An allocation leaves the position right behind the block; its span stays where it is, or changes places with the next and no other |
| DynArenaTheorems.MarkRoundTripIff | modules/allocator/dyn_arena.c:125-138 | A mark word gives its position back exactly when index and offset fit 16 and 48 bits |
| DynArenaTheorems.MarkOfSpan65536 | modules/allocator/dyn_arena.c:11-13 | The mark of span 65536 is that of span 0 |
| DynArenaTheorems.RestoreAny | modules/allocator/dyn_arena.c:133-153 | Any 64-bit word is rejected unchanged, or is the mark of a position no later than the present one |
| DynArenaTheorems.RestoreAccepts | modules/allocator/dyn_arena.c:133-153 | In every reachable state an outstanding mark is accepted and brings its position back |
| DynArenaTheorems.ShrinkGivesDead | modules/allocator/dyn_arena.c:61-80 | A span given back holds no live block and no mark but one at the very start |
| DynArenaTheorems.InvRun | modules/allocator/dyn_arena.c:38-162 | Every run of alloc, grow, shrink, clean, mark and restore keeps the invariant |
| DynArenaTheorems.LiveBlocksSafe | modules/allocator/dyn_arena.c:38-162 | Over every run live blocks are aligned, inside memory handed over, and disjoint |
| DynArenaTheorems.MarkThenRestore | modules/allocator/dyn_arena.c:82-153 | Whatever is done above a mark, restoring brings back the position, the live blocks and the spans of that moment |
| DynArenaLayout.PositionIsTop | modules/allocator/dyn_arena.c:38-162 | Over every run the live blocks are packed, each at the first aligned address behind the last or in the next span, and the position is right behind the last one |
| DynArenaLayout.ShrinkRefusesIff | modules/allocator/dyn_arena.c:61-80 | Over every run the last span is refused exactly when a live block lies in it |
| DynArenaLayout.GrowThenShrink | modules/allocator/dyn_arena.c:38-80 | A span grown by comes straight back and leaves the arena as it was |
| DynArenaLayout.SpansAccountedFor | modules/allocator/dyn_arena.c:38-162 | Over every run the spans held and given back are those handed in, each as often |
| DynArenaAllocator.SetUp | modules/allocator/dyn_arena.c:202-222 | One span, empty, in a table of four; or nothing without memory |
| DynArenaAllocator.DynArena.Grow | modules/allocator/dyn_arena.c:38-60 | The span is added last, unless the full table cannot be doubled |
| DynArenaAllocator.DynArena.Shrink | modules/allocator/dyn_arena.c:61-80 | The last span is given back, or the empty span when it is in use |
| DynArenaAllocator.DynArena.Alloc | modules/allocator/dyn_arena.c:82-124 | State and result as specified |
| DynArenaAllocator.DynArena.Mark | modules/allocator/dyn_arena.c:125-132 | The word of the present position |
| DynArenaAllocator.DynArena.Restore | modules/allocator/dyn_arena.c:133-153 | State and answer as specified, reading only spans that exist |
| DynArenaAllocator.DynArena.Clean | modules/allocator/dyn_arena.c:154-162 | Back to the start of the first span |
| Lifecycle.LifeWord.BeginInit | include/narthex/inl/lifecycle.h:26-32 | Wins exactly on a dead word; the loser learns whether it is alive |
| Lifecycle.LifeWord.BeginTerm | include/narthex/inl/lifecycle.h:41-47 | Wins exactly on a live word; the loser learns whether it is dead |
| CachedValue.InvStep | modules/filesystem/system.c:47-71 | Every step of every thread keeps the cache's invariant |
| CachedValue.ComputesOnce | modules/filesystem/system.c:47-71 | Over every run: one owner at most, one success at most, no read before publication, all successes return that value, failures are returned one for one |
| CachedValue.SuccessIsPublished | modules/filesystem/system.c:54-69 | Over every run a computation that succeeds is published or held by the thread about to publish it, failures are recorded in order, and without a success nothing is published or returned |
| CachedValue.PublishedForGood | modules/filesystem/system.c:62-65 | A published value never changes or goes away |
| CachedValue.AliveReturns | modules/filesystem/system.c:48-52 | Once it is there, each of a call's own steps brings the return of it nearer |
| CachedValue.StartingLetsGo | modules/filesystem/system.c:54-69 | While it is being computed one thread owns the slot, waits for nobody and is disturbed by nobody |
| CachedValue.AliveRun | modules/filesystem/system.c:48-52 | Over every schedule from then on, a call's own steps and what it has left add up to what it had, and it returns that value after the last |
| CachedValue.StartingRun | modules/filesystem/system.c:54-69 | Over every schedule the owner keeps the slot starting until it lets go, after at most three of its own steps |
| CachedValue.FailureReopens | modules/filesystem/system.c:58-61 | A failed computation leaves the slot as if never tried |
| CachedValue.CachedPath.Get | modules/filesystem/system.c:47-71 | One thread's retry loop against any number of moves of the others between any two of its accesses: successes are the published value, failures one's own, and nothing is waited for that nobody holds |

## Left out

- FreeListTheorems.InvRun: is about runs in which each reallocation's copy fits its new block; one that
  does not overwrites a header, as `ReallocOverwrites` shows, and then nothing is promised.
- FreeListTheorems.RunFromSetup: is about the same runs.
- FreeListTheorems.ReallocUsed: speaks of the lists; the bytes are in `FreeList.Realloc`.
- FreeListAllocator.FreeList.Realloc: asks for a null or live pointer and a copy that fits, for the
  same reason; `CopyFitsIff` says when that is.
- FreeListAllocator.FreeList.Memcpy: keeps headers and payload in two arrays that spoil each other
  chunk by chunk; the bit patterns of a header read as payload are not modelled.
- FreeListInvariant.InvGrow: is about the 65536 spans a tag can name; `FreeListTags.InvGrow` is about
  any number.
- FreeListAllocator.FreeList.Grow: the headers in memory are followed up to 65536 spans; past them
  `FreeListTags` follows the two lists.
- FreeListTags.InvGrow: asks that no region of the new span's tag is next to it, since otherwise
  `ClearKeepsApartIff` and `MergesLater` say what happens.
- FreeListTags.InvRun: is about runs that grow so, and whose copies fit.
- FreeListTags.NeverTwoSpans: is about the same runs.
- Log.Logger.Append: one thread only, with the clock's reading and its text as parameters; the lock,
  the count of writers and the wait for them are in `LogProtocol`.
- Log.Logger.Flush: one thread only, so there is nobody to wait for.
- PathObject.Path.Normalize: of a path too deep for the stack it promises the old length and the flags,
  not which half has been rewritten. The stack is a sequence, and its capacity a number beside it.
- CachedValue.CachedPath.Get: loops as often as the given turns allow, where the source spins
  without bound.
- A view is a copy of the bytes it shows, so it does not follow later changes of the path.
- Best fit and worst fit: their comparisons (`modules/allocator/free_list.c:245` and `:282`) start
  from the wrong end and never accept a block, so there is no selection to prove.
- `modules/allocator/arena.c`: the one-span case of the arena proved here.
- Poisoning, allocator tables other than first-fit realloc, teardown of allocators and logger.
- malloc and realloc: their answer is a parameter that leaves the state unchanged on failure.
- Strings given to a path are values, so one that aliases the path's own buffer is not modelled.
- Message lengths near 2^64, where adding the fixed size would wrap, and more than 2^32 - 1
  writers in flight.
- The digits of a time stamp: a stamp is any 19 bytes, chosen anew whenever the clock moves on (or
  left as it was, which is what the source does when the host cannot convert the time).
- `vsnprintf`, partial or failed `write`, memory orders weaker than sequential consistency, and
  termination of the logger while others log.
- Local time, the clock and uptime, which depend on the host's clock and time-zone tables;
  `utc_offset_seconds`, which the UTC conversion leaves as it was.
- Windows branches; `modules/filesystem/nth_fs.c` and the queries of the operating system;
  `modules/vulkan`.
