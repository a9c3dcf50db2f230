/** What registering, mapping and unmapping do to one table entry, and which kernel objects the entries own. */
module Entries {
  import opened Wrappers
  import opened Words
  import opened PageWindow
  import opened SlotTable
  import opened Kernel

  /** System and huge page size; a system without huge pages has huge page size 0. */
  datatype PageSizes = PageSizes(base: Word, huge: Word)

  ghost predicate UsablePages(p: PageSizes) {
    && PowerOfTwo(p.base) && 8 <= p.base
    && (p.huge == 0 || (PowerOfTwo(p.huge) && 8 <= p.huge))
  }

  function Rounded(s: Slot, pagesize: Word): Slot {
    s.(pagesize := pagesize, length := RoundUp(s.length, pagesize), offset := RoundDown(s.offset, pagesize))
  }

  function Fresh(kind: Kind, name: string, range: Range, flags: Flags): Slot {
    Slot(kind, name, None, range.length, range.offset, None, 0, flags, Prot(true, true, false), None, None)
  }

  /** An entry taken from the process's memory map. */
  function FromMaps(kind: Kind, name: string, path: string, range: Range, start: nat, flags: Flags): Slot {
    var s := Fresh(kind, name, range, flags).(start := Some(start));
    if kind.File? then s.(path := Some(path), prot := Prot(true, true, true)) else s
  }

  function FromFile(name: string, path: string, range: Range, flags: Flags, status: FileStatus, fd: nat): Slot {
    Fresh(File, name, range, flags).(path := Some(path), fd := Some(fd), prot := Prot(status.readable, status.writable, false))
  }

  function FromShm(name: string, range: Range, flags: Flags, pages: PageSizes, id: nat): Slot {
    Rounded(Fresh(Shm, name, range, flags), if flags.huge then pages.huge else pages.base).(shmid := Some(id))
  }

  /** The entry as it stands when mmap() or shmat() is called, and whether that point is reached. */
  function Prepare(s: Slot, range: Option<Range>, flags: Flags, fileSize: Word, pagesize: Word): (Slot, bool) {
    var flagged := if flags != NO_FLAGS then s.(flags := flags) else s;
    match s.kind
    case Free => (s, false)
    case Shm => (s, true)
    case Anon => (Rounded(flagged, pagesize), true)
    case File =>
      var ranged := if range.Some? then flagged.(offset := range.value.offset, length := range.value.length) else flagged;
      var r := Rounded(ranged, pagesize);
      if r.fd.None? || r.offset > fileSize then (r, false)
      else (r.(length := if r.length == 0 then (RoundUp(fileSize, pagesize) + W64 - r.offset) % W64 else r.length), true)
  }

  predicate Fixed(s: Slot) { s.kind.Anon? && s.offset != 0 }

  function Unmapped(s: Slot): Slot { s.(start := None) }

  predicate Mapped(s: Slot) { !s.kind.Free? && !s.flags.maps && s.start.Some? }

  ghost predicate Aligned(s: Slot) {
    && PowerOfTwo(s.pagesize) && 8 <= s.pagesize
    && Multiple(s.length, s.pagesize) && Multiple(s.offset, s.pagesize) && 0 < s.length
  }

  /** What holds of every entry between commands. */
  ghost predicate EntryOk(s: Slot, pages: PageSizes) {
    if s.kind.Free? then s == ZEROED
    else if s.flags.maps then s.start.Some? && !s.kind.Shm? && s.fd.None? && s.pagesize == 0
    else
      && (s.kind.File? ==> s.fd.Some? && s.path.Some?)
      && (s.kind.Shm? ==> s.shmid.Some? && Aligned(s))
      && (!s.kind.Shm? ==> s.pagesize == 0 || s.pagesize == pages.base)
      && (s.start.Some? && !s.kind.Shm? ==> s.pagesize == pages.base && Aligned(s))
  }

  lemma ZeroedIsOk(pages: PageSizes)
    ensures EntryOk(ZEROED, pages) && Owned(ZEROED) == None && !Mapped(ZEROED)
  {
  }

  // ---- What is registered ----

  /** The fields of new entries, as they are given. A shared memory entry is rounded at once. */
  lemma NewEntryFields(kind: Kind, name: string, path: string, range: Range, flags: Flags, status: FileStatus, start: nat, fd: nat)
    ensures var v := Fresh(Anon, name, range, flags);
      && v.kind == Anon && v.name == name && v.offset == range.offset && v.length == range.length && v.flags == flags
      && v.start.None? && v.fd.None? && v.shmid.None? && v.path.None? && v.pagesize == 0
      && v.prot.read && v.prot.write && !v.prot.exec
    ensures var v := FromFile(name, path, range, flags, status, fd);
      && v.kind == File && v.name == name && v.offset == range.offset && v.length == range.length && v.flags == flags
      && v.start.None? && v.fd == Some(fd) && v.shmid.None? && v.path == Some(path) && v.pagesize == 0
      && v.prot.read == status.readable && v.prot.write == status.writable && !v.prot.exec
    ensures var v := FromMaps(kind, name, path, range, start, flags);
      && v.kind == kind && v.name == name && v.offset == range.offset && v.length == range.length && v.flags == flags
      && v.start == Some(start) && v.fd.None? && v.shmid.None? && v.pagesize == 0
      && v.path == (if kind.File? then Some(path) else None) && v.prot.exec == kind.File?
  {
  }

  lemma NewShmFields(name: string, range: Range, flags: Flags, pages: PageSizes, id: nat)
    requires UsablePages(pages) && (flags.huge ==> pages.huge != 0)
    ensures var p, v := if flags.huge then pages.huge else pages.base, FromShm(name, range, flags, pages, id);
      && v.kind == Shm && v.name == name && v.flags == flags && v.shmid == Some(id) && v.start.None? && v.fd.None?
      && v.pagesize == p && p > 0 && v.offset == range.offset - range.offset % p
      && (range.length <= W64 - p ==> v.length == CeilTo(range.length, p))
  {
    hide PowerOfTwo, RoundUp, RoundDown, CeilTo;
    var p := if flags.huge then pages.huge else pages.base;
    RoundDownMeaning(range.offset, p);
    RoundUpMeaning(range.length, p);
  }

  // ---- Mapping again ----

  lemma RoundedIsAligned(s: Slot, p: Word)
    requires PowerOfTwo(p)
    ensures 0 < p
    ensures var r := Rounded(s, p); Multiple(r.length, p) && Multiple(r.offset, p) && Rounded(r, p) == r
    ensures Multiple(s.length, p) && Multiple(s.offset, p) && s.pagesize == p ==> Rounded(s, p) == s
  {
    RoundingIsIdempotent(s.length, p);
    RoundingIsIdempotent(s.offset, p);
  }

  lemma ToEndOfFile(end: Word, offset: Word, p: Word)
    requires PowerOfTwo(p) && 0 < p && Multiple(end, p) && Multiple(offset, p)
    ensures Multiple((end + W64 - offset) % W64, p)
  {
    WordIsMultiple(p);
    MultiplesAddUp(end, offset, p);
    MultiplesAddUp(end - offset, W64, p);
    assert (end + W64 - offset) % W64 == if end < offset then end + W64 - offset else end - offset;
  }

  lemma PreparedChanges(s: Slot, range: Option<Range>, flags: Flags, fileSize: Word, p: Word)
    requires !s.kind.Free? && !s.flags.maps && !flags.maps
    ensures var r := Prepare(s, range, flags, fileSize, p).0;
      && r == s.(offset := r.offset, length := r.length, pagesize := r.pagesize, flags := r.flags) && !r.flags.maps
      && if s.kind.Shm? then r == s else r.pagesize == p
  {
    hide RoundUp, RoundDown;
  }

  lemma PreparedExtent(s: Slot, range: Option<Range>, flags: Flags, fileSize: Word, p: Word)
    requires PowerOfTwo(p) && 8 <= p && (s.kind.Anon? || s.kind.File?)
    ensures var (r, reached) := Prepare(s, range, flags, fileSize, p); 0 < r.length && reached ==> Aligned(r)
  {
    hide RoundUp, RoundDown, PowerOfTwo, Multiple;
    var flagged := if flags != NO_FLAGS then s.(flags := flags) else s;
    if s.kind.Anon? {
      RoundedIsAligned(flagged, p);
    } else {
      var ranged := if range.Some? then flagged.(offset := range.value.offset, length := range.value.length) else flagged;
      RoundedIsAligned(ranged, p);
      RoundingIsIdempotent(fileSize, p);
      ToEndOfFile(RoundUp(fileSize, p), Rounded(ranged, p).offset, p);
    }
  }

  lemma PreparedIsAligned(s: Slot, range: Option<Range>, flags: Flags, fileSize: Word, pages: PageSizes)
    requires UsablePages(pages) && EntryOk(s, pages) && !s.kind.Free? && !s.flags.maps && !flags.maps
    ensures var (r, reached) := Prepare(s, range, flags, fileSize, pages.base);
      && r == s.(offset := r.offset, length := r.length, pagesize := r.pagesize, flags := r.flags) && !r.flags.maps
      && if s.kind.Shm? then r == s
         else r.pagesize == pages.base && (0 < r.length && reached ==> Aligned(r))
  {
    hide Prepare, Aligned, EntryOk, PowerOfTwo;
    PreparedChanges(s, range, flags, fileSize, pages.base);
    if !s.kind.Shm? {
      PreparedExtent(s, range, flags, fileSize, pages.base);
    }
  }

  lemma NewShmIsOk(name: string, range: Range, flags: Flags, pages: PageSizes, id: nat)
    requires UsablePages(pages) && !flags.maps && 0 < FromShm(name, range, flags, pages, id).length
    ensures EntryOk(FromShm(name, range, flags, pages, id), pages)
  {
    if flags.huge && pages.huge == 0 {
      RoundUpToNothing(range.length);
    } else {
      RoundedIsAligned(Fresh(Shm, name, range, flags), if flags.huge then pages.huge else pages.base);
    }
  }

  /** Unmapping forgets the address, and nothing else. */
  lemma UnmappingForgetsOnlyTheAddress(s: Slot)
    ensures Unmapped(s).start.None? && Unmapped(s).(start := s.start) == s
  {
  }

  /**
   * Unmap and map without a range gives back the same extent, and the same flags if none are given. For a file this holds
   * whatever its new size is, as long as the offset is not beyond it; even if the extent was first "to the end of the file".
   */
  lemma RemapReproduces(s: Slot, flags: Flags, fileSize: Word, pages: PageSizes)
    requires UsablePages(pages) && EntryOk(s, pages) && Mapped(s)
    ensures var (r, reached) := Prepare(Unmapped(s), None, flags, fileSize, pages.base);
      && r.offset == s.offset && r.length == s.length && r.pagesize == s.pagesize && r.start.None?
      && r.flags == (if flags == NO_FLAGS || s.kind.Shm? then s.flags else flags)
      && r.(flags := s.flags, start := s.start) == s
      && (reached <==> s.kind.File? ==> s.offset <= fileSize)
  {
    RoundedIsAligned(Unmapped(s), pages.base);
  }

  /**
   * The extent that a mapping asks for, in plain arithmetic. A file's is the given range if there is one, else the registered
   * one; an anonymous segment's is always the registered one. Offsets go down to a page and lengths up.
   */
  lemma PreparedExtentIs(s: Slot, range: Option<Range>, flags: Flags, fileSize: Word, p: Word)
    requires PowerOfTwo(p) && (s.kind.Anon? || s.kind.File?) && p > 0
    ensures var asked := if s.kind.File? && range.Some? then range.value else Range(s.offset, s.length);
      var (r, reached) := Prepare(s, range, flags, fileSize, p);
      && r.offset == asked.offset - asked.offset % p
      && (0 < asked.length <= W64 - p ==> r.length == CeilTo(asked.length, p))
      && r.pagesize == p && r.flags == (if flags != NO_FLAGS then flags else s.flags)
      && r == s.(offset := r.offset, length := r.length, pagesize := r.pagesize, flags := r.flags)
      && (reached <==> s.kind.Anon? || (s.fd.Some? && r.offset <= fileSize))
  {
    hide RoundUp, RoundDown, PowerOfTwo, Multiple, CeilTo;
    var asked := if s.kind.File? && range.Some? then range.value else Range(s.offset, s.length);
    RoundDownMeaning(asked.offset, p);
    RoundUpMeaning(asked.length, p);
    CeilIsLeastMultiple(asked.length, p, 0);
  }

  /** To the end of a file: from the offset's page to the end of the file's last page. */
  lemma PreparedToEndIs(s: Slot, range: Option<Range>, flags: Flags, fileSize: Word, p: Word)
    requires PowerOfTwo(p) && p > 0 && s.kind.File? && s.fd.Some?
    requires var asked := if range.Some? then range.value else Range(s.offset, s.length);
      asked.length == 0 && asked.offset - asked.offset % p <= fileSize <= W64 - p
    ensures var r := Prepare(s, range, flags, fileSize, p).0;
      r.offset + r.length == CeilTo(fileSize, p)
  {
    hide RoundUp, RoundDown, PowerOfTwo, Multiple, CeilTo, Prepare;
    var asked := if range.Some? then range.value else Range(s.offset, s.length);
    RoundDownMeaning(asked.offset, p);
    RoundUpOfZero(p);
    RoundUpMeaning(fileSize, p);
    CeilIsLeastMultiple(fileSize, p, 0);
    AttemptToEnd(s, range, flags, fileSize, p);
    WrappedToEnd(RoundUp(fileSize, p), asked.offset - asked.offset % p);
  }

  lemma WrappedToEnd(end: Word, offset: Word)
    requires offset <= end
    ensures (end + W64 - offset) % W64 == end - offset
  {
  }

  /**
   * The first attempt that reaches mmap() with a nonzero length fixes the extent, even if the kernel then refuses:
   * a later attempt without a range keeps "to the end of the file" as it was, whatever the size is by then.
   */
  lemma FirstAttemptFixesExtent(s: Slot, range: Option<Range>, flags: Flags, size1: Word, size2: Word, pages: PageSizes)
    requires UsablePages(pages) && EntryOk(s, pages) && !s.kind.Free? && !s.flags.maps && !flags.maps
    requires var (once, reached) := Prepare(s, range, flags, size1, pages.base); reached && 0 < once.length
    ensures var once := Prepare(s, range, flags, size1, pages.base).0;
      Prepare(once, None, NO_FLAGS, size2, pages.base) == (once, s.kind.File? ==> once.offset <= size2)
  {
    PreparedIsAligned(s, range, flags, size1, pages);
    RoundedIsAligned(Prepare(s, range, flags, size1, pages.base).0, pages.base);
  }

  /** The part of an entry that a mapping attempt asks for. */
  function Asked(s: Slot, range: Option<Range>): Range {
    if range.Some? then range.value else Range(s.offset, s.length)
  }

  /** The length from an aligned offset to the end of a file. */
  function ToEnd(offset: Word, fileSize: Word, p: Word): Word {
    (RoundUp(fileSize, p) + W64 - offset) % W64
  }

  lemma WrappedDifference(a: Word, b: Word, offset: Word)
    ensures (a + W64 - offset) % W64 == (b + W64 - offset) % W64 <==> a == b
    ensures (a + W64 - offset) % W64 == 0 <==> a == offset
  {
    assert (a + W64 - offset) % W64 == if a < offset then a + W64 - offset else a - offset;
    assert (b + W64 - offset) % W64 == if b < offset then b + W64 - offset else b - offset;
  }

  /** An attempt on a file entry that asks for "to the end of the file". */
  lemma AttemptToEnd(s: Slot, range: Option<Range>, flags: Flags, fileSize: Word, p: Word)
    requires PowerOfTwo(p) && s.kind.File? && s.fd.Some? && RoundUp(Asked(s, range).length, p) == 0
    ensures var (r, reached) := Prepare(s, range, flags, fileSize, p);
      var offset := RoundDown(Asked(s, range).offset, p);
      && r.kind.File? && r.fd.Some? && r.offset == offset && Multiple(offset, p) && (reached <==> offset <= fileSize)
      && r.length == (if reached then ToEnd(offset, fileSize, p) else 0) && Multiple(r.length, p)
  {
    hide RoundUp, RoundDown, PowerOfTwo, Multiple;
    RoundedIsAligned(s.(offset := Asked(s, range).offset, length := Asked(s, range).length), p);
    RoundingIsIdempotent(fileSize, p);
    ToEndOfFile(RoundUp(fileSize, p), RoundDown(Asked(s, range).offset, p), p);
    RoundingIsIdempotent(0, p);
    RoundUpOfZero(p);
  }

  lemma RoundUpOfZero(p: Word)
    requires PowerOfTwo(p)
    ensures 0 < p && RoundUp(0, p) == 0 && Multiple(0, p)
  {
    hide RoundUp, PowerOfTwo;
    WordIsMultiple(p);
    RoundUpMeaning(0, p);
  }

  /**
   * A file entry is attempted with "to the end of the file" when the file has `size1` bytes, and again without a range when it
   * has `size2` and the attempt gets as far as mmap(). The second attempt goes to the end of the file as it is then if and only
   * if the first one stopped before mmap(), asked it for nothing, or the end is on the same page.
   */
  lemma RetryFollowsEndExactly(s: Slot, range: Option<Range>, flags: Flags, size1: Word, size2: Word, p: Word)
    requires PowerOfTwo(p) && s.kind.File? && s.fd.Some? && RoundUp(Asked(s, range).length, p) == 0
    requires RoundDown(Asked(s, range).offset, p) <= size2
    ensures var offset := RoundDown(Asked(s, range).offset, p);
      var once := Prepare(s, range, flags, size1, p).0;
      var (twice, reached) := Prepare(once, None, NO_FLAGS, size2, p);
      && reached && twice.offset == offset
      && (twice.length == ToEnd(offset, size2, p) <==>
            size1 < offset || RoundUp(size1, p) == offset || RoundUp(size1, p) == RoundUp(size2, p))
  {
    hide RoundUp, RoundDown, PowerOfTwo, Multiple, Prepare;
    var once := Prepare(s, range, flags, size1, p).0;
    AttemptToEnd(s, range, flags, size1, p);
    RoundUpOfZero(p);
    var offset := RoundDown(Asked(s, range).offset, p);
    MultipleIsFixed(offset, p);
    MultipleIsFixed(once.length, p);
    WrappedDifference(RoundUp(size1, p), RoundUp(size2, p), offset);
    if once.length == 0 {
      AttemptToEnd(once, None, NO_FLAGS, size2, p);
    } else {
      SecondAttempt(once, size2, p);
    }
  }

  /** An extent that is already aligned is attempted as it is. */
  lemma SecondAttempt(once: Slot, fileSize: Word, p: Word)
    requires PowerOfTwo(p) && once.kind.File? && once.fd.Some? && once.length != 0 && once.offset <= fileSize
    requires RoundUp(once.length, p) == once.length && RoundDown(once.offset, p) == once.offset
    ensures var (r, reached) := Prepare(once, None, NO_FLAGS, fileSize, p);
      reached && r.offset == once.offset && r.length == once.length
  {
    hide RoundUp, RoundDown;
  }

  /** A file of one page is attempted whole, the kernel refuses, and the file grows to two pages: the retry maps one. */
  lemma RetryMissesGrowth()
    ensures var s := FromFile("f", "/f", Range(0, 0), NO_FLAGS, FileStatus(true, true, true, true), 3);
      var once := Prepare(s, None, NO_FLAGS, 4096, 4096).0;
      Prepare(once, None, NO_FLAGS, 8192, 4096).0.length != ToEnd(0, 8192, 4096)
  {
    var s := FromFile("f", "/f", Range(0, 0), NO_FLAGS, FileStatus(true, true, true, true), 3);
    assert Pow2(12) == 4096;
    hide RoundUp, RoundDown;
    MultipleIsFixed(0, 4096);
    MultipleIsFixed(4096, 4096);
    MultipleIsFixed(8192, 4096);
    hide Prepare, FromFile;
    FromFileIs();
    RetryFollowsEndExactly(s, None, NO_FLAGS, 4096, 8192, 4096);
  }

  lemma FromFileIs()
    ensures var s := FromFile("f", "/f", Range(0, 0), NO_FLAGS, FileStatus(true, true, true, true), 3);
      s.kind.File? && s.fd.Some? && s.offset == 0 && s.length == 0
  {
  }

  /** On a mapped entry a range operation stays page-aligned and inside the mapped region. */
  lemma WindowInsideMapping(s: Slot, pages: PageSizes, range: Range)
    requires UsablePages(pages) && EntryOk(s, pages) && Mapped(s)
    ensures Clip(range, s.length, s.pagesize).Some? <==> range.offset < s.length
    ensures Clip(range, s.length, s.pagesize).Some? ==>
      var w := Clip(range, s.length, s.pagesize).value;
      w.start % s.pagesize == 0 && w.length % s.pagesize == 0 && 0 < w.length && w.start + w.length <= s.length
  {
    ClipIsExact(range, s.length, s.pagesize);
    if range.offset < s.length {
      ClipIsPageAlignedAndInside(range, s.length, s.pagesize);
    }
  }

  // ---- Ownership of kernel objects ----

  /** The handle an entry answers for. */
  function Owned(s: Slot): Option<Handle> {
    if s.kind.File? && s.fd.Some? then Some(FileHandle(s.fd.value))
    else if s.kind.Shm? && s.shmid.Some? then Some(ShmHandle(s.shmid.value, s.length))
    else None
  }

  function OwnedSet(s: Slot): set<Handle> {
    if Owned(s).Some? then {Owned(s).value} else {}
  }

  ghost predicate Holder(slots: seq<Slot>, i: nat, h: Handle) {
    i < |slots| && Owned(slots[i]) == Some(h)
  }

  /** The process's handles are exactly those of its entries, each owned once, and shared memory ids are unique. */
  ghost predicate HandlesConserved(slots: seq<Slot>, handles: set<Handle>) {
    && (forall h :: h in handles <==> exists i :: Holder(slots, i, h))
    && (forall i, j, h | Holder(slots, i, h) && Holder(slots, j, h) :: i == j)
    && (forall h, g | h in handles && g in handles && h.ShmHandle? && g.ShmHandle? && h.shmid == g.shmid :: h == g)
  }

  /** The process's mappings are exactly the mapped entries, each at its recorded start and length. */
  ghost predicate MappingsConserved(slots: seq<Slot>, mappings: map<nat, Region>) {
    && (forall i: nat :: i in mappings <==> i < |slots| && Mapped(slots[i]))
    && (forall i: nat | i in mappings && i < |slots| && slots[i].start.Some? ::
          mappings[i] == Region(slots[i].start.value, slots[i].length))
  }

  lemma OwnedIsHeld(slots: seq<Slot>, handles: set<Handle>, i: nat)
    requires HandlesConserved(slots, handles) && i < |slots|
    ensures Owned(slots[i]).Some? ==>
      var h := Owned(slots[i]).value;
      h in handles && (h.ShmHandle? ==> forall g | g in handles && g.ShmHandle? && g.shmid == h.shmid :: g == h)
  {
    if Owned(slots[i]).Some? { assert Holder(slots, i, Owned(slots[i]).value); }
  }

  lemma AcquireHandle(slots: seq<Slot>, handles: set<Handle>, i: nat, v: Slot, h: Handle)
    requires HandlesConserved(slots, handles) && i < |slots| && Owned(slots[i]) == None && Owned(v) == Some(h)
    requires h !in handles
    requires h.ShmHandle? ==> forall g | g in handles && g.ShmHandle? :: g.shmid != h.shmid
    ensures HandlesConserved(slots[i := v], handles + {h})
  {
    var after := slots[i := v];
    forall g
      ensures g in handles + {h} <==> exists j :: Holder(after, j, g)
    {
      if g in handles {
        var j :| Holder(slots, j, g);
        assert Holder(after, j, g);
      }
      if g == h { assert Holder(after, i, g); }
      if j :| Holder(after, j, g) && j != i {
        assert Holder(slots, j, g);
      }
    }
    forall j, k, g | Holder(after, j, g) && Holder(after, k, g)
      ensures j == k
    {
      if j != i { assert Holder(slots, j, g); }
      if k != i { assert Holder(slots, k, g); }
    }
  }

  lemma DropHandle(slots: seq<Slot>, handles: set<Handle>, i: nat, v: Slot)
    requires HandlesConserved(slots, handles) && i < |slots| && Owned(v) == None
    ensures Owned(slots[i]).Some? ==> Owned(slots[i]).value in handles
    ensures HandlesConserved(slots[i := v], handles - OwnedSet(slots[i]))
  {
    var after := slots[i := v];
    var gone := OwnedSet(slots[i]);
    if Owned(slots[i]).Some? { assert Holder(slots, i, Owned(slots[i]).value); }
    forall g
      ensures g in handles - gone <==> exists j :: Holder(after, j, g)
    {
      if g in handles - gone {
        var j :| Holder(slots, j, g);
        assert Holder(after, j, g);
      }
      if j :| Holder(after, j, g) {
        assert Holder(slots, j, g);
      }
    }
    forall j, k, g | Holder(after, j, g) && Holder(after, k, g)
      ensures j == k
    {
      assert Holder(slots, j, g) && Holder(slots, k, g);
    }
  }

  /** Changing slots without changing who owns what. */
  lemma KeepHandles(slots: seq<Slot>, after: seq<Slot>, handles: set<Handle>)
    requires HandlesConserved(slots, handles) && |slots| <= |after|
    requires forall i | 0 <= i < |slots| :: Owned(after[i]) == Owned(slots[i])
    requires forall i | |slots| <= i < |after| :: Owned(after[i]) == None
    ensures HandlesConserved(after, handles)
  {
    forall i: nat, h
      ensures Holder(after, i, h) <==> Holder(slots, i, h)
    {
    }
  }

  lemma SlotChangeKeepsMappings(slots: seq<Slot>, i: nat, v: Slot, mappings: map<nat, Region>)
    requires MappingsConserved(slots, mappings) && i < |slots|
    ensures Mapped(v) && v.start.Some? ==> MappingsConserved(slots[i := v], mappings[i := Region(v.start.value, v.length)])
    ensures !Mapped(v) ==> MappingsConserved(slots[i := v], mappings - {i})
    ensures !Mapped(slots[i]) ==> mappings - {i} == mappings
    ensures Mapped(slots[i]) && Mapped(v) && v.start == slots[i].start && v.length == slots[i].length ==>
              MappingsConserved(slots[i := v], mappings)
  {
  }
}
