# memtoy, verified

memtoy is a toy for memory segments on NUMA machines: a command loop that registers, maps, touches, binds and removes
anonymous, file and shared memory segments, in one process or in a tree of child processes that get their commands over
pipes. This project models the state and the arithmetic below its system calls, and proves what they keep.

| file | models |
|---|---|
| `Words`, `Numerals`, `Wrappers` | unsigned 64-bit words as naturals with C's bitwise operators; `strtoul()`; optional values |
| `PageWindow` | mask rounding modulo 2^64, and the clipped window that touch, mbind, where and lock act on |
| `TouchMemory` | the page-stride loop, the signal handler and its armed flag, under any schedule of signals |
| `SlotTable`, `Kernel`, `Entries`, `TableInvariant` | the segment table as a value, the kernel as ghost state, one entry's life, the invariant |
| `SegmentTable` | the table on the heap: 63 slots and a terminator, the free-slot cache, and every command on it |
| `Session`, `KillingTouch`, `Remap` | whole runs of segment commands against a specification on maps, up to a command that kills the process; exactly which do; what mapping again gives |
| `AnonChain`, `ChainRun` | segments chained with `offset=`, as entries and as commands of a run |
| `RingList`, `ChildList` | the intrusive circular list on the heap, and the list of children as its client |
| `Routing`, `LineShapes`, `LineBuffer` | path-routed command lines, as text, as the kinds of lines there are, and in place in the character buffer |
| `Pipe`, `Protocol` | the process tree as a transition system over pipes of bytes, where a read takes at most 254 characters: safety over every run |
| `Endings` | what ends a process, and that it then does nothing more |
| `Progress`, `LongLines` | no deadlock and bounded work for any input; exactly when two processes execute at once |
| `Token`, `Delivery`, `EveryRun` | only one process can move in lock step; a path-routed command is delivered in some run, and in every run |
| `Sizes`, `RangeText`, `CpuMask`, `NodeMask` | scaled sizes and their in-band sentinels, and what they are worth as written; CPU masks; node masks and node lists |

The kernel answers every request at will. A mapping without a given address is fresh and aligned, one with an address
is put there, and a release has to name something that is held: that is a precondition, so it is proved at each call.
Page sizes are powers of two of at least 8.

Seven results are about what the code does not do. Each has a failing input and the exact condition, for all inputs:

* A range is covered by its window if and only if the rounded length, counted from the page of the offset, reaches the
  segment's end, or `offset % pagesize + length` does not pass it (`PageWindow.CoverageExactly`). Two bytes across a page
  boundary are not (`PageWindow.UnalignedRequestLosesAPage`), although segment.c:758-760 promises every page from the
  offset to the end of the request.
* A file mapped "to the end of the file" by a second attempt goes to the end as it is then if and only if the first attempt
  stopped before mmap(), asked mmap() for nothing, or the end has stayed on its page (`Entries.RetryFollowsEndExactly`).
  Otherwise the first attempt has frozen the length, even if mmap() failed (`Entries.RetryMissesGrowth`).
* A child can be reached by path if and only if its name has no `/` and does not start with `?`
  (`Routing.ReachableExactly`); `child` accepts every other word too, such as `a/b` (`Routing.SlashedNameIsMissed`).
* Node ids are converted to `int` before they are checked: an id is accepted if and only if it is below 2^64 and its low 32
  bits are at most the last node, and it is read as those bits (`NodeMask.OneIdIsReadModuloInt`). 2^32 is read as node 0
  (`NodeMask.WrappedIdIsAccepted`).
* An interactive root reads lines of any length, a child at most 254 characters at a time. A forwarded line keeps parent and
  child in lock step if and only if it is shorter than that (`Protocol.SendKeepsLockStepExactly`), and a command can be sent
  to a child without two processes ever executing if and only if it is (`LongLines.SafeCommandsExactly`, with the run for
  every longer command). Lines of a script always are (`Pipe.ReadLinesFit`). Absence of deadlock, bounded work and the
  arrival of every byte hold for every input.
* A `touch` that is not refused kills the process by SIGFPE if and only if the segment is anonymous or a file and no `map`
  command has named it since it was registered (`KillingTouch.KillsExactly`): the page size that it divides by is still 0
  (segment.c:810). Registering a page and touching it is enough (`KillingTouch.TouchBeforeMapKills`). Nothing is cleaned
  up then, and shared memory ids stay (`Session.Session`).
* A CPU mask text denotes the number that is parsed if and only if every chunk is below 2^32 (`CpuMask.ParsedNumber`);
  `0x100000001` is read as 1, and `0x100000000` is ignored like a leading zero (`CpuMask.LongChunkLosesBits`).

## Model

| member | source | states |
|---|---|---|
| PageWindow.RoundDownMeaning | segment.c:230-236 | The mask form is the largest multiple of the page size that is not above the value. |
| PageWindow.RoundUpMeaning | segment.c:222-228 | The mask form is the least multiple not below the value up to 2^64 - pagesize; beyond, it wraps to 0 exactly where that multiple is 2^64. |
| PageWindow.RoundingIsIdempotent | segment.c:222-236 | Rounding twice is rounding once, results are multiples, and multiples are left alone, so mapping again changes no extent. |
| PageWindow.ClipIsExact | segment.c:786-804 | For all 64-bit offsets and lengths and a page-multiple segment: refused if and only if the offset is not below the segment's length, and otherwise the window is the one of unbounded arithmetic, although rounding up may have wrapped to 0. |
| PageWindow.ClipIsPageAlignedAndInside | segment.c:932-951 | The window is page-aligned, not empty, inside the segment, and starts on the page of the requested offset. |
| PageWindow.CoverageExactly | segment.c:786-804 | The part of the request inside the segment is inside the window if and only if the rounded length, from the page of the offset, reaches the end of the segment, or the request does not pass it; always for page-aligned offsets. |
| PageWindow.UnalignedRequestLosesAPage | segment.c:758-804 | Two bytes across a page boundary: the window is the first page only. |
| PageWindow.DisjointMeans | segment.c:281-287 | Regions that are not empty are disjoint if and only if no address is in both. |
| TouchMemory.Context.SignalHandler | memtoy.c:228-266 | SIGSEGV and SIGBUS jump and disarm if armed and kill otherwise; SIGINT and SIGQUIT are recorded; anything else kills. |
| TouchMemory.Context.ResetSignal | memtoy.c:339-345 | Nothing is recorded and the fault handler is disarmed. |
| TouchMemory.Context.TouchWord | memtoy.c:425-452 | One pass: the word is accessed unless a fault comes first, a write stores the word's own address, any handled signal stops the loop, and the handler is disarmed afterwards. |
| TouchMemory.Context.TouchMemory | memtoy.c:413-453 | On an aligned window and under any schedule of handled signals: terminates, accesses the first words of the leading pages in order and nothing else, as many as the schedule lets through, and leaves the handler disarmed. |
| TouchMemory.FirstWordsInOrder | memtoy.c:425-436 | The words accessed are one per page, entry i at the start of page i, and fewer pages give a prefix of more. |
| TouchMemory.CompleteRuns | memtoy.c:438-451 | Every page is accessed if and only if no signal was pending, none arrives during any page but the last, and none comes before the last access. |
| TouchMemory.StopsAtFirstSignal | memtoy.c:425-452 | The number of pages accessed, exactly: nothing arrived during those before the last one, and the loop stopped early only for SIGSEGV or SIGBUS before the next access, or for a signal at the last one or before the start. |
| TouchMemory.SelfAddressedMeans | memtoy.c:428-436 | After a writing touch exactly the listed words are set, each to its own address, and all others are as they were. |
| TouchMemory.NonFatalMeans | memtoy.c:246-265 | The schedules considered: SIGINT and SIGQUIT at any time, SIGSEGV and SIGBUS only while armed, and nothing else. |
| SlotTable.LookupRefinesMap | segment.c:521-550 | A lookup answers from the map that the table denotes and does not change it, although it fills the cache and may append a slot. |
| SlotTable.AllocateAfterMiss | segment.c:95-129 | After a failed lookup the allocator takes the cached slot without a scan, or fails and changes nothing because exactly 63 segments are live. |
| SlotTable.LookupSpaceBound | segment.c:541-547 | A lookup appends a slot only if every slot is live, so slots stay within one of the peak of live segments. |
| SlotTable.ReleaseUndoesAllocate | segment.c:173-199 | Taking the cached slot and releasing it gives back the table. |
| SlotTable.AllocatedSlotIs | segment.c:95-129 | The cached slot, else the lowest free one, else a never-used one at the end; none if and only if 63 segments are live. |
| SlotTable.ReleasedSlotIs | segment.c:193-199 | The slot is zeroed, the others stay, and it is cached only if none is. |
| SlotTable.LookupCaches | segment.c:527-547 | A lookup keeps a cached slot; without one it caches the lowest free slot before the place where it ended, and appends one only if it fails, passed none, and there are fewer than 63. |
| Kernel.KernelState.Map | segment.c:281-287 | A request with an address is granted there or not at all; one without is granted only where nothing is mapped. |
| Kernel.KernelState.ShmGet | segment.c:466-487 | A new id is unlike every live one, and the segment keeps the size it was created with. |
| Entries.PreparedIsAligned | segment.c:258-299 | Before the system call an entry has page-multiple offset and length, and only its extent, page size and flags have changed. |
| Entries.PreparedExtentIs | segment.c:258-278 | The extent asked for, in plain arithmetic: a file's given range if there is one and otherwise its registered one, an anonymous segment's always the registered one; the offset down and the length up to whole pages; the given flags if any; and when mmap() is reached. |
| Entries.PreparedToEndIs | segment.c:413-428 | A file asked for without a length is mapped from the page of the offset to the end of the file's last page. |
| Entries.NewEntryFields | segment.c:573-607 | Name, offset, length, flags, access rights and path of a new entry, by kind, are the ones given. |
| Entries.NewShmIsOk | segment.c:454-487 | A registered shared memory entry is aligned to its page size, with huge pages too; without them a huge request rounds to length 0, which the kernel refuses. |
| Entries.NewShmFields | segment.c:454-487 | A new shared memory entry has offset and length rounded to its own page size, huge if it asks for that, and the id that the system gave. |
| Entries.UnmappingForgetsOnlyTheAddress | segment.c:165 | Unmapping changes no field but the address. |
| Entries.RemapReproduces | segment.c:383-449 | Unmap and map without a range: the same offset, length and page size, field by field, and the old flags unless new ones are given; for a file whatever its size has become, and mmap() is reached if and only if its offset is not beyond it. |
| Entries.FirstAttemptFixesExtent | segment.c:383-449 | Once mmap() has been called for a nonzero length, later attempts without a range use the same extent even if that call failed and the file has another size; with an explicit length as well. |
| Entries.RetryFollowsEndExactly | segment.c:383-449 | Attempted "to the end of the file" and then again without a range, the second attempt goes to the end as it is then if and only if the first stopped before mmap(), asked for nothing, or the end is on the same page. |
| Entries.RetryMissesGrowth | segment.c:424-428 | A file that grows from one page to two between the attempts: the second does not reach its end. |
| Entries.WindowInsideMapping | segment.c:786-804 | On a mapped entry a range command acts inside the mapped region, on whole pages. |
| Entries.AcquireHandle | segment.c:305-363 | Descriptors and ids stay exactly those of the entries, each once, when an entry acquires a new one. |
| Entries.DropHandle | segment.c:185-191 | They stay so when an entry gives its handle up, which is one that the process holds. |
| TableInvariant.LookupKeepsSound | segment.c:521-550 | A lookup keeps the invariant of table and handles, and every mapping's entry. |
| TableInvariant.FillKeepsSound | segment.c:573-621 | Filling the cached slot with a new name and what it owns keeps the invariant and adds that name to the denoted map. |
| TableInvariant.ReleaseKeepsSound | segment.c:173-199 | Releasing a live slot keeps the invariant, gives up what it owned and takes its name out of the map. |
| TableInvariant.AttemptKeepsSound | segment.c:852-898 | A mapping attempt, granted or not, keeps the invariant; a granted one adds the region of exactly the entry's start and length. |
| TableInvariant.UnmapKeepsSound | segment.c:134-166 | Unmapping keeps the invariant and everything but the entry's start. |
| TableInvariant.DiscardKeepsSound | segment.c:731-755 | Unmapping and then releasing keeps the invariant; nothing stays mapped for the slot. |
| TableInvariant.CleanupIsComplete | segment.c:205-220 | When every shared memory slot is released, only descriptors are left, and every other entry is as it was. |
| SegmentTable.Segment.PrepareMap | segment.c:258-299 | The fields before the system call are those of the specification, and mmap() is reached exactly when it says so. |
| SegmentTable.SegmentTable.GetSegSlot | segment.c:95-129 | The pointer loop is the allocator of the specification. |
| SegmentTable.SegmentTable.Get | segment.c:521-550 | The pointer loop, its cache update and its preallocation are the lookup of the specification. |
| SegmentTable.SegmentTable.FreeSegSlot | segment.c:173-199 | The slot is zeroed except for its number, the cache is filled if empty, and exactly the entry's handle is released. |
| SegmentTable.SegmentTable.UnmapSegment | segment.c:134-166 | Unmaps exactly the region that the latest mapping of the entry recorded and changes no field but the address, or does nothing if it is not mapped or from the memory map. |
| SegmentTable.SegmentTable.OpenFile | segment.c:305-363 | A file that is missing, not regular, not accessible or cannot be opened gives the slot back and leaves the handles alone; otherwise the new descriptor and the access rights are recorded. It is opened if and only if it is a regular file that can be read or written. |
| SegmentTable.SegmentTable.GetShmSegment | segment.c:454-487 | A refused shared memory segment gives the slot back; otherwise the new id and the rounded length are recorded. |
| SegmentTable.SegmentTable.Register | segment.c:559-621 | A known name is left alone, an error unless it comes from the memory map; "table full" if and only if the name is new and 63 segments are live; a success adds exactly the entry and its handle, every failure adds nothing; the system is asked once for the memory of a shared memory segment and for a file that can be opened, and never otherwise, so that a refusal is its own; the invariant holds on. |
| SegmentTable.SegmentTable.Remove | segment.c:731-755 | The entry is unmapped and gone from the map, its handle is released and no other; entries from the memory map are refused. |
| SegmentTable.SegmentTable.Unmap | segment.c:823-845 | Only the entry's start changes, and its region is given back. |
| SegmentTable.SegmentTable.Map | segment.c:852-898 | A mapped entry is left alone; otherwise the entry gets the prepared extent, the kernel is asked if and only if the preparation got that far, and if it grants the region, at the requested address or disjoint from all others, that is recorded. |
| SegmentTable.SegmentTable.Cleanup | segment.c:205-220 | No shared memory id is left, every descriptor is, and the map loses exactly the shared memory entries. |
| SegmentTable.SegmentTable.SegmentRange | segment.c:1371-1382 | The offset and length fields of a known entry. |
| SegmentTable.SegmentTable.ClipSegment | segment.c:1144-1164 | The statements that the range commands repeat compute the window of the specification. |
| SegmentTable.SegmentTable.Mbind | segment.c:905-951 | The window, or why there is none: no such segment, not mapped, past the end. |
| SegmentTable.SegmentTable.Location | segment.c:988-1036 | The same with 64 pages in place of the default length; an entry from the memory map, whose page size is 0, kills the process unless its length is 0. |
| SegmentTable.SegmentTable.Touch | segment.c:763-816 | Writing to an entry from the memory map is refused; an entry that has no page size and a nonzero length kills the process; a mapped entry's window is touched page by page up to a stop by a signal. |
| Session.AnonAfter | commands.c:1010-1024 | `offset=` of an unknown segment is an error that changes nothing; otherwise the new entry is registered at the end of that segment's fields. |
| Session.Execute | commands.c:970-1347 | Every segment command answers and acts as specified on the map of segments and the kernel's objects, windows of range commands and killed processes included, whatever it does to slots and cache, and keeps the invariant; only mapping an entry that has an address forces one. |
| Session.HandlesAreOwned | segment.c:173-220 | Read off the map of segments: the descriptors and shared memory ids are exactly those of live file and shared memory entries, and no two entries have the same. |
| Session.MappingsAreMapped | segment.c:134-166 | Every mapped region is that of a live mapped entry with its start and length, and every such entry's region is mapped. |
| Session.HandlesInARun | segment.c:173-220 | In every state of every run: at most 63 segments; a descriptor is open if and only if a file segment has it, and a shared memory segment exists, with its size, if and only if an entry has that id and length. |
| Session.MappingsInARun | segment.c:134-166 | In every state of every run each mapped segment has its region, and each region is a mapped segment's. |
| Session.NoAddressTwice | segment.c:281-287 | No address is ever in two regions of a run that names no address. |
| Session.UnknownNameIsRefused | commands.c:1010-1024 | Every command answers "no such segment" if and only if the name it uses is unknown, and then changes nothing. |
| Session.FullTableRefuses | segment.c:95-129 | A registration is refused as "table full" if and only if the name is new and 63 segments are live, as a duplicate if and only if it is known, and a refusal changes nothing. |
| Session.UnmappedRangeIsRefused | segment.c:920-924 | mbind and where are refused as not mapped if and only if the segment is known and not mapped. |
| Session.WritingIsDenied | segment.c:774-784 | touch is denied if and only if it writes to an entry from the memory map; that the segment is mapped is not asked. |
| Session.WindowsAre | segment.c:926-944 | On a mapped segment mbind, touch and where refuse an offset at or beyond the end, and otherwise use the pages from the one of the offset, the length rounded up, to the end if it is 0 or too long. |
| Session.EffectNamesNoAddress | segment.c:269-278 | A command that names no address leaves no entry that would ask mmap() for one: rounding and mapping again keep offset 0. |
| Session.Run | commands.c:2650-2727 | For every list of commands from an empty table, up to one that kills the process: answers and effects are the specified ones step by step, the kernel's objects are those of the live segments in every state, the table never has more slots than one above the peak of live segments, and if no command names an address the mapped regions are disjoint in every state. |
| Session.HighestMeans | segment.c:541-547 | The bound on the number of slots is one above the largest number of segments live at once: it is reached and never passed. |
| Session.Session | memtoy.c:541-550 | After a run that is not killed the exit cleanup leaves every descriptor, no shared memory id, and every entry but those of shared memory; after one that is killed every handle and entry is as it was. |
| KillingTouch.KillsExactly | segment.c:807-813 | In every run from an empty table: a command kills the process if and only if it touches a segment of nonzero length that is anonymous or a file and that no `map` command has named since its registration. |
| KillingTouch.RunIsSized | segment.c:269-397 | In every state of a run: an entry has page size 0 if and only if it is not shared memory and no mapping was attempted since its registration, whatever became of the attempt. |
| KillingTouch.TouchBeforeMapKills | segment.c:581-610 | `anon a 4096` and `touch a` kill the process. |
| Remap.RemappedInARun | segment.c:134-166 | In every run, a segment mapped, unmapped and mapped again without a range has the same length and offset again, and the same address if it asks for one, whatever range and flags the first map had, whatever the file's size is by then, and whatever commands come between that do not map, unmap or remove it. |
| AnonChain.MappedWhereAsked | segment.c:269-278 | An entry at a page-aligned nonzero address is mapped exactly there, with its length rounded up. |
| AnonChain.ChainTiles | commands.c:1010-1024 | Entries registered with `offset=` after their predecessor is mapped tile memory: end to end from the base, disjoint, together as long as the rounded lengths. |
| AnonChain.UnmappedPredecessor | segment.c:581-586 | After an unmapped predecessor the new segment starts at its end or one page before; the two overlap if and only if the rounded length is not reached, for a page-aligned address exactly if the length is not whole pages. |
| ChainRun.ChainOfCommandsTiles | commands.c:1010-1024 | In every run of commands, wherever in it `anon`, `map`, `anon ... offset=`, `map`, ... succeed one after another with any flags, their mapped regions tile memory from the first address. |
| RingList.AddBetween | linux-list.h:35-43 | The four links around the new node. |
| RingList.ListAdd | linux-list.h:53-56 | On a ring: the node becomes the first. |
| RingList.ListAddTail | linux-list.h:66-69 | On a ring: the node becomes the last. |
| RingList.ListDel | linux-list.h:90-94 | The ring loses exactly the node, whose links are cleared. |
| RingList.ListDelInit | linux-list.h:100-104 | The ring loses exactly the node, which becomes a ring of its own. |
| RingList.EmptyMeansAlone | linux-list.h:110-113 | The pointer test is emptiness of the list. |
| RingList.ListSplice | linux-list.h:120-134 | The nodes of a disjoint list go in front of those of the other, in order. |
| RingList.UnlinkAll | linux-list.h:160-162 | The safe iteration that unlinks every node visits each entry once, in order, ends, and leaves an empty list. |
| ChildList.Children.FindByName | commands.c:1616-1633 | The first child with the name, and none if and only if there is none. |
| ChildList.Children.FindByPid | commands.c:1638-1655 | The first child with the process id, and none if and only if there is none. |
| ChildList.Children.Spawn | commands.c:1724-1735 | A name in use is refused and only that; a new child is appended, and names stay unique. |
| ChildList.Children.Reap | commands.c:1829-1847 | Exactly the child with the process id is taken off, if there is one; the others keep their order. |
| ChildList.Children.Free | commands.c:1561-1580 | Every child is visited once and the list is empty. |
| Routing.OneHop | commands.c:2672-2709 | A printed path loses its first name and nothing else on its way to that child. |
| Routing.PathRoundTrip | commands.c:1858-1900 | For every list of valid names and every command, following the printed path delivers exactly the command to the descendant of that path. |
| Routing.PathsAreWritten | commands.c:1858-1882 | A path is written `/n c`, and `/m/n c` for two names. |
| LineShapes.ShapeMeans | commands.c:2666-2724 | Written out as text: blank lines and comments do nothing, a command between blanks is executed as exactly that command, `/` alone or before `?` lists the children, a name with nothing after it is run past, and a name with a command forwards that command, with its `/` if it goes further down. |
| LineShapes.ShapeOf | commands.c:2666-2724 | Every line is one of these, so each is recognised if and only if the line has that form. |
| LineShapes.ExecutesExactly | commands.c:2693-2724 | A line executes a command if and only if it is that command between blanks, and the command neither starts with `/` nor `#`. |
| Routing.ReachableExactly | commands.c:1868-1886 | Of the words that `child` accepts as names, a path reaches exactly those without '/' and without a leading '?'. |
| Routing.SlashedNameIsMissed | commands.c:1868-1882 | What is meant for a child named `a/b` goes to `a`. |
| Routing.ForwardShorter | commands.c:1878-1902 | A forwarded line is at least two characters shorter than the line it came from. |
| Routing.ReadBack | commands.c:2579-2609 | A line below the read limit is taken whole by one read, and nothing else. |
| Routing.OneReadTakes | commands.c:2590-2605 | One read takes the input up to its first newline, which is dropped, or its first 254 characters, or all of it. |
| Routing.ForwardedLinesFit | commands.c:2586-2605 | At every depth, whatever the script: a forwarded line is exactly one read of the receiver. |
| Routing.LongLinesSplit | commands.c:2590-2605 | A line of 254 characters or more, which only the interactive reader lets through, is cut at 254. |
| Pipe.ReadsOfStream | commands.c:2590-2605 | The commands read from a pipe are the lines written to it if and only if every line is below 254 characters; otherwise they are more. |
| Pipe.WriteArrives | commands.c:1899-1902 | A line written, whatever the pipe still holds, keeps what arrives equal to what was written, as exactly one more command if it is short and at least two if not. |
| Pipe.ReadLinesFit | commands.c:2590-2605 | Whatever is read with the limit, from a script or a pipe, is forwarded as a single command. |
| LineBuffer.ChildSend | commands.c:1860-1903 | The cursors, the name cut off by a NUL, the '/' put back and the newline added write exactly the bytes that routing on text says, to that child. |
| LineBuffer.ProcessLine | commands.c:2666-2724 | One pass of the loop, with blanks trimmed in place, does with the buffer what routing on text says. |
| LineBuffer.LineMeans | commands.c:1896-1903 | What is written for each kind of line is exactly what the pipe expects of a line: its text and a newline, to that child if there is one of that name. |
| Protocol.StepKeepsInv | commands.c:1662-1697 | Every step of every process keeps the protocol's invariant, for input lines of any length, and its lock-step part if the root's lines fit. |
| Protocol.RunKeepsInv | commands.c:2650-2726 | So does every run. |
| Protocol.EveryByteArrives | commands.c:1899-1912 | In every reachable state, whatever the input: what a child has read, and what is left in its pipe, are the reads of the lines that its parent wrote; it has responded once for each command; a parent waits only while there is something to wait for. |
| Protocol.LockStep | commands.c:1899-1912 | If the root's lines fit, in every reachable state and for every live child: commands in its pipe, the child at work and responses in its pipe add up to 1 while its parent waits for it and to 0 otherwise; the commands are the lines written, once and in order. |
| Protocol.ExecutedIsPrefixOfSent | commands.c:779-785 | If the root's lines fit, what a child has read, `quit` included, is a prefix of the lines its parent sent, dead or alive. |
| Protocol.SendKeepsLockStepExactly | commands.c:1899-1912 | After forwarding a line to an idle child there is one command or response to come if and only if the line is below 254 characters, and more otherwise. |
| Protocol.DeadParentsHaveIdleChildren | commands.c:2589-2598 | A child that its parent is not waiting for is idle, with empty pipes: no parent exits under a running command. |
| Protocol.AncestorsWait | commands.c:1785-1807 | Above a busy process everyone waits, each for the next one down. |
| Protocol.BusyOnOnePath | commands.c:1785-1807 | Busy processes lie on one path from the root. |
| Protocol.AtMostOneExecutes | commands.c:2650-2726 | If the root's lines fit, in every reachable state at most one process of the tree executes a command. |
| Endings.EndingsAreFinal | commands.c:779-785 | In every run, after `quit`, a fatal command error, the end of its input or a write that nobody reads, a process reads, runs, spawns and forwards nothing more and only exits; when nothing but input can happen it is dead; `quit` has responded to the parent, once, and none of the others. |
| Endings.OnlyEndingsEnd | commands.c:2712-2721 | Nothing else ends a process, and no process ends another. |
| Endings.CommandsAvailable | commands.c:1724-1735 | A command of the process itself may do its work, fail, quit if the response can be read, or spawn a child whose name no listed child has. |
| Endings.SpawnedIsListed | commands.c:1785-1807 | A new child has the given name, its parent waits for it, and lines with its name go to it. |
| Endings.DeadChildIsReaped | commands.c:1829-1847 | A dead child is taken off its parent's list if and only if that one is alive and not waiting, and its name is free then. |
| Endings.EndOfInputComesLast | commands.c:2589-2598 | In every run, before a child sees the end of its input it has read every byte that was written to it and responded to every command. |
| Endings.YoungerSiblingKeepsPipeOpen | commands.c:1776-1783 | While a process lives that the same parent forked later, a child neither sees the end of its input nor loses the reader of its responses. |
| Endings.DescendantKeepsPipeOpen | commands.c:1776-1783 | While a child of the child lives, the parent does not see the end of the responses. |
| Endings.AbandonedChildLeaves | commands.c:2656-2659 | With its parent and everyone forked later gone, an idle child sees the end of its input and exits. |
| Token.OnlyTheTokenMoves | commands.c:1662-1697 | In lock step, beside processes on their way out, only the process that executes or has something to read can move, or its parent can take its response. |
| Token.OneToken | commands.c:1662-1697 | There is at most one such process. |
| LongLines.SafeCommandsExactly | commands.c:2654-2664 | For every command: no run in which the root only spawns a child and sends it that command has two processes executing, if and only if the command is below 254 characters. |
| LongLines.FirstHalfRuns | commands.c:1899-1912 | For every longer command there is a run in which the child has executed its first 254 characters, the root is reading its next line, and the rest is still in the pipe. |
| Delivery.PathReachesItsProcess | commands.c:2672-2709 | From every reachable state with a path of reading children, a line with that path that fits has a run of two steps for each name in which the process at the path takes and runs exactly the command, everyone above waits for the next one down, and nobody else notices. |
| EveryRun.EveryRunDelivers | commands.c:2672-2709 | From every reachable state in lock step with a path of reading children, once the root has read a line with that path that fits: every run without further input that can go no further has come to the state in which the process at the path runs the command. |
| EveryRun.ArrivedMeans | commands.c:2672-2709 | In that state the process at the path has taken exactly the command, once, and executes exactly it unless it starts with `/` or `#`; everyone above waits for the next one down, and nobody off the path has taken anything. |
| Progress.YoungestOrphanLeaves | commands.c:1776-1783 | Pipe ends leak into processes forked later, and yet the youngest process without a parent reads what is left and then sees the end of its input. |
| Progress.WaiterGoesOn | commands.c:1662-1676 | A waiting process has a response to take, a child that can go on, or the end of the response pipe, unless someone younger waits or is without a parent. |
| Progress.NoDeadlock | commands.c:2650-2726 | Whatever the input, a reachable state in which nothing but input can happen is at rest: everyone alive reads, command pipes are empty, no orphans; no response is left over either if the root's lines fit. |
| Progress.StepUsesWork | commands.c:1878-1912 | Every step but reading input uses up work, forwarding included, also of lines that are read in pieces. |
| Progress.ComesToRest | commands.c:2650-2726 | From every reachable state only boundedly many steps are possible without input, and when none is, the tree is at rest. |
| Progress.BoundedWork | commands.c:2650-2726 | The number of steps of every run is at most 3, plus 13 for every line and 5 for every character of the input lines read. |
| Sizes.ShiftIsMultiplication | commands.c:131-141 | Shifting is multiplying modulo 2^64. |
| Sizes.ScaledSize | commands.c:116-148 | A number with a suffix is the product modulo 2^64, and the true product exactly when that is below 2^64. |
| Sizes.ScaledIsNeverBogus | commands.c:126-147 | With a page size above 1 no such number is the all-ones error value. |
| Sizes.DefaultExactlyWithoutRange | commands.c:1338-1341 | `where` passes the default length if and only if no range was given, so 64 pages never replace a given length. |
| RangeText.PlainSize | commands.c:116-148 | A decimal, `0x` or leading-zero numeral is worth its digits in base 10, 16 or 8, at most 2^64 - 1. |
| RangeText.SizeWithSuffix | commands.c:126-147 | With k, m, g or p in either case it is multiplied by 1024, 1024^2, 1024^3 or the page size, modulo 2^64; any other character makes it the error value. |
| RangeText.SignedNumeralIsRead | commands.c:118-124 | A minus sign subtracts from 2^64, as strtoul() does. |
| RangeText.RangeIsRead | commands.c:165-200 | `<offset> <length>` gives the offset and the length in this order, `*` the length 0, and the rest of the text; bad if and only if one of the two is the error value. |
| RangeText.RangeIsMissing | commands.c:165-200 | An offset alone is bad, and a word that starts with no digit is no range. |
| RangeText.RangeTextIs | commands.c:165-200 | Every text that starts with a digit is one of these two. |
| RangeText.WhereShows | commands.c:1338-1341 | `where` uses the default if no digit comes first, and otherwise exactly the range that is read, or nothing if that is bad. |
| RangeText.DefaultWindow | segment.c:1019-1036 | The default is 64 pages from the segment's start, or all of it if it is shorter. |
| CpuMask.ShowCpus | commands.c:1371-1389 | The words from the highest with a bit set down to word 0. |
| CpuMask.ChunkFormat | commands.c:1371-1389 | A chunk is `0x` and eight lower-case hexadecimal digits. |
| CpuMask.ParseNumerals | commands.c:327-361 | Parsing any list of hexadecimal numerals gives their values modulo 2^32 (saturated at 2^64 first) without leading zeros, and fails if and only if more than the set's words are left; a comma at the end makes no difference. |
| CpuMask.OnlyMasksAreRead | commands.c:335-360 | Whatever is accepted is a list of such numerals joined by commas, although the test of a chunk's second character lets others begin. |
| CpuMask.MaskRoundTrip | commands.c:1371-1389 | Parsing what is printed, joined by commas, gives back the set, whatever its number of words. |
| CpuMask.ParsedNumber | commands.c:319-379 | For every list of hexadecimal numerals that is accepted, which is one of which not more than the set's words remain: the little-endian words denote the number that the big-endian text denotes if and only if every numeral is below 2^32. |
| CpuMask.LongChunkLosesBits | commands.c:345-350 | `0x100000001` is read as 1 and `0x100000000` as no chunk at all. |
| CpuMask.SameNumber | commands.c:363-375 | Transferring the chunks in reverse order keeps the number. |
| CpuMask.ReadChunks | commands.c:327-361 | The loop over the text collects the chunks of the specification, or fails where it does. |
| CpuMask.Transfer | commands.c:363-375 | The loop over the chunks fills the words of the specification. |
| CpuMask.GetCpusetFromMask | commands.c:319-384 | Text to words, and how many chunks were used; no set on an error. |
| NodeMask.Mask.Zero | include/numa.h:39-42 | The empty set. |
| NodeMask.Mask.Set | include/numa.h:44-48 | Set insertion. |
| NodeMask.Mask.Clr | include/numa.h:50-54 | Set removal. |
| NodeMask.Mask.IsSet | include/numa.h:55-63 | Set membership for every int, with negative ones and those beyond the mask out. |
| NodeMask.Mask.Equal | include/numa.h:64-71 | Word by word comparison is set equality. |
| NodeMask.SameNodesSameWords | include/numa.h:64-71 | A set has one representation. |
| NodeMask.Mask.NodeIdList | commands.c:739-759 | The array's front is the enumeration of the specification, if it has room for as many ids as that has. |
| NodeMask.EnumeratedExactlyInOrder | commands.c:747-750 | That enumeration is strictly increasing and holds exactly the nodes of the mask up to the last node. |
| NodeMask.GetNodemask | commands.c:571-613 | The loop over the text reads the list of the specification, and the mask is exactly its ids. |
| NodeMask.ListIsReadExactly | commands.c:578-605 | Numerals joined by commas are accepted if and only if each is, as an int, from 0 to the last node; the ids are then those, in order, with duplicates. |
| NodeMask.OnlyListsAreRead | commands.c:578-605 | Nothing else is accepted: not the empty text, no trailing comma, no blanks or signs. |
| NodeMask.OneIdIsReadModuloInt | commands.c:585-591 | An id is accepted if and only if it is below 2^64 and its low 32 bits are at most the last node, and read as those; from 2^64 on, and with low bits from 2^31 on, it makes a negative index. |
| NodeMask.WrappedIdIsAccepted | commands.c:585-591 | 4294967296 is read as node 0. |

## Left out

- SegmentTable.SegmentTable.Touch: says nothing of the words accessed in entries that are not mapped, which the code does not refuse, or in entries from the memory map, where it reads one word until a signal comes before it divides by 0.
- SegmentTable.SegmentTable.Cleanup: keeps the invariant of table and handles but not that of mappings, because the code releases shared memory entries without detaching them.
- SegmentTable.SegmentTable.Register: names are taken as given; the library's basename() is not modelled.
- Kernel.KernelState.Map: a mapping at a given address may lie over others, which then keep their recorded regions; disjointness is claimed only for runs that name no address.
- LineBuffer.ChildSend: a child's name with nothing after it makes the code step past the terminator; the model stops there with `RanPast`, and in `Protocol` such a line does nothing.
- Session.AnonAfter: for an unknown segment the code prints an error and returns an uninitialised variable (commands.c:1018-1022); the model answers `NoSuch`.
- SegmentTable.SegmentTable.Mbind: a refusal by the system call, and by the queries of `where`, comes after the answer that is modelled.
- Session.Execute: the words that touch accesses are stated by `SegmentTable.SegmentTable.Touch` only.
- NodeMask.GetNodemask: what happens after a negative node id is used as an index is not modelled; the result is `Stray`.
- NodeMask.Mask.NodeIdList: requires room for the allowed nodes, which the array of numa_info (commands.c:830) lacks when every node up to the last is allowed.
- ChildList.Children.Spawn: requires that the kernel gives a process id that no listed child has; a failing pipe() or fork() is left out.
- Protocol.StepKeepsInv: pipes have no size limit and a line is written at once; waits are not interrupted by signals, a dead child is taken off the list in a step of its own while its parent is alive and not waiting, commands that stay in the process end, and the SIGQUIT of the exit cleanup is not delivered.
- Progress.NoDeadlock: a process that exits is assumed to close its pipe ends at once.
- Session.Run: goes on after an error, as an interactive session does; without a terminal the process exits, with its cleanup, at the first one (commands.c:2712-2721). It leaves out registration of the process's own memory map at the start, and the exit cleanup of forked children, which inherit the parent's table.
- Lock and unlock of ranges (segment.c:1095-1197): the same window statements as mbind, and thin wrappers around system calls otherwise; mprotect likewise.
- The system calls themselves, /proc/<pid>/maps and /proc/meminfo, memory policies and their flags: I/O on unspecified text, or values passed on. Unknown policies are not rejected by the code (commands.c:479-481 returns 1, and callers test for a negative value).
- A failing calloc(), error counters of children, closing of descriptors at child exit.
- Routing.ForwardedLinesFit: scripts are taken to hold no NUL characters, at which the code stops (commands.c:2603); `Protocol` excludes them from what the root reads.
- Columns and spacing of output: `ShowCpus` gives the words shown, and the round trip joins them by commas as the parser wants them.
- Command tables and abbreviations, help, history, options, signal names, timing, page migration.
- Machines whose unsigned long is not 64 bits.
