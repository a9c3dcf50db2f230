/** The segment table on the heap, and the commands on it. */
module SegmentTable {
  import opened Wrappers
  import opened Words
  import opened PageWindow
  import opened SlotTable
  import opened Kernel
  import opened Entries
  import opened TableInvariant
  import opened TouchMemory

  class Segment {
    var kind: Kind
    var name: string
    var start: Option<nat>
    var length: Word
    var offset: Word
    var path: Option<string>
    var pagesize: Word
    var flags: Flags
    var prot: Prot
    var fd: Option<nat>
    var shmid: Option<nat>
    const slot: nat

    constructor (slot: nat)
      ensures View() == ZEROED && this.slot == slot
    {
      kind, name, start, length, offset, path := Free, "", Some(0), 0, 0, None;
      pagesize, flags, prot, fd, shmid := 0, NO_FLAGS, Prot(false, false, false), Some(0), Some(0);
      this.slot := slot;
    }

    function View(): Slot
      reads this
    {
      Slot(kind, name, start, length, offset, path, pagesize, flags, prot, fd, shmid)
    }

    method Clear()
      modifies this
      ensures View() == ZEROED
    {
      kind, name, start, length, offset, path := Free, "", Some(0), 0, 0, None;
      pagesize, flags, prot, fd, shmid := 0, NO_FLAGS, Prot(false, false, false), Some(0), Some(0);
    }

    method Init(kind: Kind, name: string, range: Range, flags: Flags)
      requires View() == ZEROED
      modifies this
      ensures View() == Fresh(kind, name, range, flags)
    {
      this.name := name;
      start := None;
      length := range.length;
      offset := range.offset;
      this.kind := kind;
      this.flags := flags;
      prot := Prot(true, true, false);
      fd := None;
      shmid := None;
    }

    method Round(pagesize: Word)
      modifies this
      ensures View() == Rounded(old(View()), pagesize)
    {
      this.pagesize := pagesize;
      length := RoundUp(length, pagesize);
      offset := RoundDown(offset, pagesize);
    }

    /** Fit a rounded file extent to the file's present size. */
    method FitFile(fileSize: Word, pagesize: Word) returns (reached: bool)
      requires Rounded(View(), pagesize) == View()
      modifies this
      ensures var s := old(View());
        && reached == (s.fd.Some? && s.offset <= fileSize)
        && View() == if reached && s.length == 0 then s.(length := (RoundUp(fileSize, pagesize) + W64 - s.offset) % W64) else s
    {
      hide RoundUp, RoundDown;
      reached := false;
      if fd != None {
        offset := RoundDown(offset, pagesize);
        if offset <= fileSize {
          reached := true;
          length := if length == 0 then (RoundUp(fileSize, pagesize) + W64 - offset) % W64 else RoundUp(length, pagesize);
        }
      }
    }

    /** The part of map_*_segment() before the system call. */
    method PrepareMap(range: Option<Range>, newFlags: Flags, fileSize: Word, pagesize: Word) returns (reached: bool)
      requires PowerOfTwo(pagesize) && !kind.Free?
      modifies this
      ensures (View(), reached) == Prepare(old(View()), range, newFlags, fileSize, pagesize)
    {
      hide RoundUp, RoundDown, PowerOfTwo, Multiple;
      reached := true;
      if newFlags != NO_FLAGS && !kind.Shm? {
        flags := newFlags;
      }
      if kind.Anon? {
        Round(pagesize);
      } else if kind.File? {
        if range.Some? {
          offset := range.value.offset;
          length := range.value.length;
        }
        RoundedIsAligned(View(), pagesize);
        Round(pagesize);
        reached := FitFile(fileSize, pagesize);
      }
    }
  }

  /** `Killed`: by SIGFPE, for which there is no handler. */
  datatype Outcome = Done | AlreadyExists | TableFull | Refused | NoSuch | Denied | NotMapped | PastEnd | Killed

  /** The entry that a successful registration of a new name adds, and the handle it acquires. */
  ghost predicate NewEntry(v: Slot, kind: Kind, name: string, path: string, range: Range, start: nat, flags: Flags,
                           status: FileStatus, pages: PageSizes, handles0: set<Handle>, handles: set<Handle>) {
    if flags.maps then v == FromMaps(kind, name, path, range, start, flags) && handles == handles0
    else match kind
      case Free => false
      case Anon => v == Fresh(kind, name, range, flags) && handles == handles0
      case File =>
        && status.exists_ && status.regular && (status.readable || status.writable) && v.fd.Some?
        && v == FromFile(name, path, range, flags, status, v.fd.value)
        && FileHandle(v.fd.value) !in handles0 && handles == handles0 + {FileHandle(v.fd.value)}
      case Shm =>
        && v.shmid.Some? && 0 < v.length
        && v == FromShm(name, range, flags, pages, v.shmid.value)
        && ShmHandle(v.shmid.value, v.length) !in handles0 && handles == handles0 + {ShmHandle(v.shmid.value, v.length)}
  }

  /**
   * A registration answers and acts as follows: a known name is left alone (an error, except for a memory-map entry);
   * a new name is refused as "table full" exactly when 63 segments are live; a success adds the entry and nothing else;
   * every failure leaves the denoted map and the process's handles as they were.
   */
  ghost predicate RegisterResult(r: Outcome, kind: Kind, name: string, path: string, range: Range, start: nat, flags: Flags,
                                 status: FileStatus, pages: PageSizes, dict0: map<string, Slot>, dict: map<string, Slot>,
                                 handles0: set<Handle>, handles: set<Handle>) {
    && (name in dict0 ==> r == if flags.maps then Done else AlreadyExists) && (r == AlreadyExists ==> name in dict0)
    && (r == TableFull <==> name !in dict0 && |dict0| == MAX_SEGMENTS)
    && (r == Refused ==> !flags.maps && !kind.Anon?)
    && (r == Done || r == AlreadyExists || r == TableFull || r == Refused)
    && if r == Done && name !in dict0 then
         && name in dict && dict == dict0[name := dict[name]]
         && NewEntry(dict[name], kind, name, path, range, start, flags, status, pages, handles0, handles)
       else dict == dict0 && handles == handles0
  }

  predicate Opens(status: FileStatus) {
    status.exists_ && status.regular && (status.readable || status.writable)
  }

  /** How often registering a new name asks the kernel for something: a refusal is the kernel's, or the file cannot be opened. */
  function Requests(kind: Kind, flags: Flags, status: FileStatus): nat {
    if flags.maps || kind.Anon? then 0
    else if kind.File? then if Opens(status) then 1 else 0
    else 1
  }

  /** The handles after acquiring what an entry owns; shared memory ids are never reused while live. */
  ghost predicate Acquired(v: Slot, handles0: set<Handle>, handles: set<Handle>) {
    match Owned(v)
    case None => handles == handles0
    case Some(h) =>
      && h !in handles0 && handles == handles0 + {h}
      && (h.ShmHandle? ==> forall g | g in handles0 && g.ShmHandle? :: g.shmid != h.shmid)
  }

  /**
   * A mapping attempt succeeds only if it reaches the kernel. It then records the region that the kernel mapped,
   * at the requested address if there is one and else disjoint from all others; a refused attempt maps nothing,
   * but the entry keeps the prepared extent.
   */
  ghost predicate MapResult(r: Outcome, s: Slot, v: Slot, range: Option<Range>, flags: Flags, fileSize: Word, pages: PageSizes,
                            slot: nat, mappings0: map<nat, Region>, mappings: map<nat, Region>) {
    var (p, reached) := Prepare(s, range, flags, fileSize, pages.base);
    if r == Done then
      && reached && v.start.Some? && v == p.(start := v.start)
      && var region := Region(v.start.value, v.length);
         && 0 < region.length && region.start + region.length < W64
         && slot !in mappings0 && mappings == mappings0[slot := region]
         && if Fixed(p) then region.start == p.offset
            else forall k | k in mappings0 :: Disjoint(mappings0[k], region)
    else
      r == Refused && v == p && mappings == mappings0
  }

  /** The system call's precondition: the slot is not mapped, and shared memory is there to be attached. */
  ghost predicate CanAttach(p: Slot, slot: nat, handles: set<Handle>, mappings: map<nat, Region>, pages: PageSizes) {
    && slot !in mappings && !p.kind.Free? && 0 < pages.base
    && (p.kind.Shm? ==>
          && p.shmid.Some? && 0 < p.pagesize && ShmHandle(p.shmid.value, p.length) in handles
          && forall h | h in handles && h.ShmHandle? && h.shmid == p.shmid.value :: h.size == p.length)
  }

  /** What the system call did for prepared entry `p`. */
  ghost predicate Attached(p: Slot, slot: nat, start: Option<nat>, mappings0: map<nat, Region>, mappings: map<nat, Region>) {
    match start
    case None => mappings == mappings0
    case Some(at) =>
      && 0 < p.length && at + p.length < W64
      && slot !in mappings0 && mappings == mappings0[slot := Region(at, p.length)]
      && if Fixed(p) then at == p.offset else forall k | k in mappings0 :: Disjoint(mappings0[k], Region(at, p.length))
  }

  lemma AttemptStarts(t: Table, i: nat, range: Option<Range>, flags: Flags, fileSize: Word, pages: PageSizes,
                      handles: set<Handle>, mappings: map<nat, Region>, peak: nat)
    requires Sound(t, handles, pages, peak) && MappingsConserved(t.slots, mappings)
    requires i < |t.slots| && !t.slots[i].kind.Free? && t.slots[i].start.None? && !flags.maps
    ensures PowerOfTwo(pages.base)
    ensures CanAttach(Prepare(t.slots[i], range, flags, fileSize, pages.base).0, i, handles, mappings, pages)
  {
    assert EntryOk(t.slots[i], pages) && i !in mappings;
    SoundParts(t, handles, pages, peak);
    hide Sound, MappingsConserved, HandlesConserved, WellFormed, EntryOk, Owned, Prepare;
    OwnedIsHeld(t.slots, handles, i);
    PreparedForKernel(t.slots[i], range, flags, fileSize, pages);
  }

  lemma AttemptEnds(t: Table, i: nat, range: Option<Range>, flags: Flags, fileSize: Word, pages: PageSizes, start: Option<nat>,
                    handles: set<Handle>, mappings0: map<nat, Region>, mappings: map<nat, Region>, peak: nat)
    requires Sound(t, handles, pages, peak) && MappingsConserved(t.slots, mappings0)
    requires i < |t.slots| && !t.slots[i].kind.Free? && t.slots[i].start.None? && !flags.maps
    requires var (p, reached) := Prepare(t.slots[i], range, flags, fileSize, pages.base);
      Attached(p, i, start, mappings0, mappings) && (!reached ==> start.None?)
    ensures var s := t.slots[i];
      var p := Prepare(s, range, flags, fileSize, pages.base).0;
      var v := p.(start := start);
      && Sound(t.(slots := t.slots[i := v]), handles, pages, peak)
      && Dict(t.slots[i := v]) == Dict(t.slots)[s.name := v]
      && MappingsConserved(t.slots[i := v], mappings)
      && MapResult(if start.Some? then Done else Refused, s, v, range, flags, fileSize, pages, i, mappings0, mappings)
      && ((start.Some? ==> !Fixed(p)) && PairwiseDisjoint(mappings0) ==> PairwiseDisjoint(mappings))
  {
    hide Sound, MappingsConserved, Dict, EntryOk, UsablePages, WellFormed, HandlesConserved, Prepare, Mapped;
    SoundEntry(t, i, handles, pages, peak);
    SoundParts(t, handles, pages, peak);
    var p := Prepare(t.slots[i], range, flags, fileSize, pages.base).0;
    PreparedForKernel(t.slots[i], range, flags, fileSize, pages);
    AttemptKeepsSound(t, i, range, flags, fileSize, pages, start, handles, mappings0, peak);
    if start.Some? && !Fixed(p) && PairwiseDisjoint(mappings0) {
      OneMoreStaysDisjoint(mappings0, i, Region(start.value, p.length));
    }
    hide PairwiseDisjoint;
  }

  lemma NewFromMaps(v: Slot, kind: Kind, name: string, path: string, range: Range, start: nat, flags: Flags, status: FileStatus,
                    pages: PageSizes, handles: set<Handle>)
    requires flags.maps && v == FromMaps(kind, name, path, range, start, flags)
    ensures NewEntry(v, kind, name, path, range, start, flags, status, pages, handles, handles) && Acquired(v, handles, handles)
  {
  }

  lemma NewAnon(v: Slot, name: string, path: string, range: Range, start: nat, flags: Flags, status: FileStatus,
                pages: PageSizes, handles: set<Handle>)
    requires !flags.maps && v == Fresh(Anon, name, range, flags)
    ensures NewEntry(v, Anon, name, path, range, start, flags, status, pages, handles, handles) && Acquired(v, handles, handles)
  {
  }

  lemma NewFromFile(v: Slot, name: string, path: string, range: Range, start: nat, flags: Flags, status: FileStatus,
                    pages: PageSizes, handles: set<Handle>, fd: nat)
    requires !flags.maps && status.exists_ && status.regular && (status.readable || status.writable)
    requires v == Fresh(File, name, range, flags).(path := Some(path), fd := Some(fd), prot := Prot(status.readable, status.writable, false))
    requires FileHandle(fd) !in handles
    ensures NewEntry(v, File, name, path, range, start, flags, status, pages, handles, handles + {FileHandle(fd)})
    ensures Acquired(v, handles, handles + {FileHandle(fd)})
  {
  }

  lemma NewFromShm(v: Slot, name: string, path: string, range: Range, start: nat, flags: Flags, status: FileStatus,
                   pages: PageSizes, handles: set<Handle>, id: nat)
    requires !flags.maps && 0 < v.length
    requires v == Rounded(Fresh(Shm, name, range, flags), if flags.huge then pages.huge else pages.base).(shmid := Some(id))
    requires forall h | h in handles && h.ShmHandle? :: h.shmid != id
    ensures NewEntry(v, Shm, name, path, range, start, flags, status, pages, handles, handles + {ShmHandle(id, v.length)})
    ensures Acquired(v, handles, handles + {ShmHandle(id, v.length)})
  {
  }

  lemma NewEntryIsOk(v: Slot, kind: Kind, name: string, path: string, range: Range, start: nat, flags: Flags,
                     status: FileStatus, pages: PageSizes, handles0: set<Handle>, handles: set<Handle>)
    requires UsablePages(pages) && !kind.Free? && (flags.maps ==> !kind.Shm?)
    requires NewEntry(v, kind, name, path, range, start, flags, status, pages, handles0, handles)
    ensures EntryOk(v, pages) && !Mapped(v) && !v.kind.Free? && v.name == name
  {
    if kind.Shm? && !flags.maps {
      NewShmIsOk(name, range, flags, pages, v.shmid.value);
    }
    hide UsablePages, Aligned, RoundUp, RoundDown;
  }

  /** Everything a registration has to establish, once its entry `v` is in the slot that the cache named. */
  lemma RegistrationSucceeds(t: Table, i: nat, v: Slot, kind: Kind, name: string, path: string, range: Range, start: nat, flags: Flags,
                             status: FileStatus, pages: PageSizes, handles0: set<Handle>, handles: set<Handle>, peak: nat,
                             mappings: map<nat, Region>)
    requires Sound(t, handles0, pages, peak) && MappingsConserved(t.slots, mappings)
    requires !kind.Free? && (flags.maps ==> !kind.Shm?)
    requires t.avail == Some(i) && name !in Dict(t.slots) && |Dict(t.slots)| != MAX_SEGMENTS
    requires NewEntry(v, kind, name, path, range, start, flags, status, pages, handles0, handles) && Acquired(v, handles0, handles)
    ensures i < |t.slots|
    ensures Sound(Table(t.slots[i := v], None), handles, pages, Max(peak, |Dict(t.slots)| + 1))
    ensures MappingsConserved(t.slots[i := v], mappings)
    ensures RegisterResult(Done, kind, name, path, range, start, flags, status, pages,
                           Dict(t.slots), Dict(t.slots[i := v]), handles0, handles)
    ensures |Dict(t.slots[i := v])| == |Dict(t.slots)| + 1
  {
    hide Sound, WellFormed, MappingsConserved, Dict, EntryOk, Owned, NewEntry, UsablePages;
    SoundParts(t, handles0, pages, peak);
    NewEntryIsOk(v, kind, name, path, range, start, flags, status, pages, handles0, handles);
    FillKeepsSound(t, i, v, handles0, handles, pages, peak);
    ReleaseUndoesAllocate(t);
    SlotChangeKeepsMappings(t.slots, i, v, mappings);
    assert !Mapped(t.slots[i]);
  }

  lemma PeakIsReached(t: Table, handles: set<Handle>, pages: PageSizes, peak: nat)
    requires Sound(t, handles, pages, peak)
    ensures Max(peak, |Dict(t.slots)|) == peak
  {
  }

  lemma RegistrationFails(r: Outcome, kind: Kind, name: string, path: string, range: Range, start: nat, flags: Flags,
                          status: FileStatus, pages: PageSizes, dict: map<string, Slot>, handles: set<Handle>)
    requires name !in dict
    requires if |dict| == MAX_SEGMENTS then r == TableFull else r == Refused && !flags.maps && !kind.Anon?
    ensures RegisterResult(r, kind, name, path, range, start, flags, status, pages, dict, dict, handles, handles)
  {
  }

  /** What a range command checks and does: whether it writes, needs a mapping, and divides by the segment's page size. */
  datatype RangeUse = RangeUse(writes: bool, needsMapping: bool, divides: bool)

  const MBIND := RangeUse(false, true, false)
  const WHERE := RangeUse(false, true, true)

  function TouchUse(rw: bool): RangeUse { RangeUse(rw, false, true) }

  /**
   * The answer of a command on a range of a segment, and the window it acts on, relative to the segment's start. An entry that
   * was never given a page size has 0; touch and where divide by it in what they print.
   */
  function RangeAnswer(dict: map<string, Slot>, name: string, range: Range, use: RangeUse): (Outcome, Region) {
    if name !in dict then (NoSuch, NO_REGION)
    else if use.writes && dict[name].flags.maps then (Denied, NO_REGION)
    else if use.needsMapping && dict[name].start.None? then (NotMapped, NO_REGION)
    else match Clip(range, dict[name].length, dict[name].pagesize)
      case None => (PastEnd, NO_REGION)
      case Some(w) => if use.divides && dict[name].pagesize == 0 then (Killed, NO_REGION) else (Done, w)
  }

  lemma TouchIsSafe(t: Table, i: nat, handles: set<Handle>, pages: PageSizes, peak: nat, range: Range)
    requires Sound(t, handles, pages, peak) && i < |t.slots| && Mapped(t.slots[i])
    ensures var s := t.slots[i];
      && PowerOfTwo(s.pagesize) && 8 <= s.pagesize
      && (Clip(range, s.length, s.pagesize).Some? ==>
            var w := Clip(range, s.length, s.pagesize).value;
            w.length % s.pagesize == 0 && 0 < w.length && w.start + w.length <= s.length)
  {
    SoundParts(t, handles, pages, peak);
    SoundEntry(t, i, handles, pages, peak);
    WindowInsideMapping(t.slots[i], pages, range);
  }

  /** A touch on a mapped entry: the first word of each page of the window, up to a stop by a signal. */
  ghost predicate TouchResult(s: Slot, w: Region, rw: bool, pages: nat, pending: bool, schedule: seq<Delivery>,
                              accesses0: seq<nat>, accesses: seq<nat>, memory0: map<nat, nat>, memory: map<nat, nat>) {
    && s.start.Some? && s.pagesize > 0 && w.start + w.length <= s.length && w.length % s.pagesize == 0
    && pages == Completed(pending, schedule, w.length / s.pagesize)
    && Touched(rw, s.start.value + w.start, s.pagesize, pages, accesses0, accesses, memory0, memory)
  }

  const NO_REGION := Region(0, 0)

  class SegmentTable {
    const kernel: KernelState
    const pages: PageSizes
    const seglist: array<Segment?>
    var avail: Segment?
    /** The non-null prefix of `seglist`. */
    ghost var segs: seq<Segment>
    /** The largest number of live segments so far. */
    ghost var peak: nat

    ghost predicate Shape()
      reads `avail, `segs, seglist
    {
      && seglist.Length == MAX_SEGMENTS + 1
      && |segs| <= MAX_SEGMENTS
      && (forall i | 0 <= i < |segs| :: seglist[i] == segs[i] && segs[i].slot == i)
      && (forall i | |segs| <= i <= MAX_SEGMENTS :: seglist[i] == null)
      && (avail != null ==> avail in segs)
    }

    ghost function Slots(): (s: seq<Slot>)
      reads `segs, segs
      ensures |s| == |segs| && forall i | 0 <= i < |segs| :: s[i] == segs[i].View()
    {
      var ss := segs;
      seq(|ss|, i requires 0 <= i < |ss| reads ss => ss[i].View())
    }

    ghost function State(): Table
      reads `avail, `segs, segs
    {
      Table(Slots(), if avail == null then None else Some(avail.slot))
    }

    constructor (kernel: KernelState, pages: PageSizes)
      ensures Shape() && State() == Table([], None) && segs == [] && peak == 0
      ensures this.kernel == kernel && this.pages == pages && fresh(seglist)
    {
      this.kernel, this.pages, avail, segs := kernel, pages, null, [];
      peak := 0;
      seglist := new Segment?[MAX_SEGMENTS + 1](_ => null);
    }

    method AppendSlot(i: nat) returns (segp: Segment)
      requires Shape() && i == |segs| < MAX_SEGMENTS
      modifies `avail, `segs, seglist
      ensures Shape() && fresh(segp) && segp.slot == i && segs == old(segs) + [segp] && avail == old(avail)
      ensures State() == old(State()).(slots := old(Slots()) + [ZEROED])
    {
      segp := new Segment(i);
      seglist[i] := segp;
      segs := segs + [segp];
    }

    method GetSegSlot() returns (segp: Segment?)
      requires Shape()
      modifies `avail, `segs, seglist
      ensures Shape() && (old(avail) != null || segp == null ==> segs == old(segs))
      ensures (State(), if segp == null then None else Some(segp.slot)) == Allocate(old(State()))
      ensures segp != null ==> segp in segs
      ensures old(avail) != null ==> segp == old(avail)
    {
      if avail != null {
        segp := avail;
        avail := null;
        return;
      }
      ghost var t := State();
      var i := 0;
      while seglist[i] != null
        invariant i <= |segs| && forall j | 0 <= j < i :: !t.slots[j].kind.Free?
        decreases |segs| - i
      {
        if seglist[i].kind.Free? {
          FirstFree(t.slots, i, |t.slots|);
          return seglist[i];
        }
        i := i + 1;
      }
      FirstFree(t.slots, i, |t.slots|);
      if i < MAX_SEGMENTS {
        segp := AppendSlot(i);
      } else {
        segp := null;
      }
    }

    /** The scan of a lookup: stops at the named entry or at the first null, and remembers a free slot on its way. */
    method Scan(name: string) returns (i: nat)
      requires Shape()
      modifies `avail
      ensures Shape() && i == Find(Slots(), name)
      ensures Slots() == old(Slots()) && State().avail == Remember(old(State()), i)
    {
      ghost var t := State();
      i := 0;
      assert Remember(t, 0) == t.avail;
      hide Remember, FreeFrom, FindFrom;
      while seglist[i] != null && (seglist[i].kind.Free? || seglist[i].name != name)
        invariant i <= |segs| && (avail != null ==> avail in segs)
        invariant State().avail == Remember(t, i)
        invariant forall j | 0 <= j < i :: !Named(t.slots[j], name)
        decreases |segs| - i
        modifies `avail
      {
        RememberStep(t, i);
        if seglist[i].kind.Free? && avail == null {
          avail := seglist[i];
        }
        i := i + 1;
      }
      assert i < |segs| ==> Named(t.slots[i], name);
    }

    method Get(name: string) returns (segp: Segment?)
      requires Shape()
      modifies `avail, `segs, seglist
      ensures Shape()
      ensures (State(), if segp == null then None else Some(segp.slot)) == Lookup(old(State()), name)
      ensures segp != null ==> segp in old(segs) && segs == old(segs)
      ensures old(segs) <= segs && forall i | |old(segs)| <= i < |segs| :: fresh(segs[i])
      ensures avail != null ==> avail in old(segs) || fresh(avail)
    {
      hide FindFrom, Find, Remember;
      var i := Scan(name);
      segp := seglist[i];
      if segp == null && avail == null && i < MAX_SEGMENTS {
        avail := AppendSlot(i);
      }
    }

    /** The scan of the pointers ends after the last segment. */
    lemma SegAt(i: nat)
      requires Shape() && i <= |segs|
      ensures i < seglist.Length && (seglist[i] == null <==> i == |segs|)
      ensures i < |segs| ==> seglist[i] == segs[i] && segs[i].slot == i && Slots()[i] == segs[i].View()
    {
    }

    lemma SlotOf(segp: Segment)
      requires Shape() && segp in segs
      ensures segp.slot < |segs| && segs[segp.slot] == segp && Slots()[segp.slot] == segp.View()
    {
    }

    lemma SameSlot(segp: Segment)
      requires Shape() && segp in segs
      ensures segp.slot < |segs| && State() == State().(slots := Slots()[segp.slot := segp.View()])
    {
      SlotOf(segp);
    }

    twostate lemma OneSlotChanged(segp: Segment)
      requires old(Shape()) && Shape() && segs == old(segs) && segp in segs
      requires forall s | s in segs && s != segp :: unchanged(s)
      ensures segp.slot < |segs| && segs[segp.slot] == segp
      ensures Slots() == old(Slots())[segp.slot := segp.View()]
    {
      var i :| 0 <= i < |segs| && segs[i] == segp;
      forall j | 0 <= j < |segs| && j != i
        ensures Slots()[j] == old(Slots())[j]
      {
        assert segs[j] in segs && segs[j] != segp;
        assert segs[j].View() == old(segs[j].View());
      }
    }

    /** Between commands: the table and the handles are sound. */
    ghost predicate Valid()
      reads this, seglist, segs, kernel
    {
      Shape() && Sound(State(), kernel.handles, pages, peak)
    }

    /** Between commands, before the exit cleanup: the mappings are those of the entries too. */
    ghost predicate Intact()
      reads this, seglist, segs, kernel
    {
      && Valid()
      && MappingsConserved(Slots(), kernel.mappings)
      && (!kernel.fixedUsed ==> PairwiseDisjoint(kernel.mappings))
    }

    method FreeSegSlot(segp: Segment)
      requires Shape() && segp in segs
      requires HandlesConserved(Slots(), kernel.handles)
      modifies `avail, segp, kernel`handles
      ensures Shape() && State() == Release(old(State()), segp.slot)
      ensures kernel.handles == old(kernel.handles) - OwnedSet(old(segp.View()))
    {
      assert Owned(segp.View()).Some? ==> Holder(Slots(), segp.slot, Owned(segp.View()).value);
      if segp.kind.File? && segp.fd.Some? {
        kernel.Close(segp.fd.value);
      }
      if segp.kind.Shm? && segp.shmid.Some? {
        kernel.ShmRemove(segp.shmid.value, segp.length);
      }
      segp.Clear();
      if avail == null {
        avail := segp;
      }
      OneSlotChanged(segp);
    }

    method UnmapSegment(segp: Segment)
      requires Shape() && segp in segs && !segp.kind.Free?
      requires MappingsConserved(Slots(), kernel.mappings)
      modifies segp, kernel`mappings
      ensures Shape() && MappingsConserved(Slots(), kernel.mappings)
      ensures var was := old(segp.View());
        && segp.View() == (if Mapped(was) then Unmapped(was) else was)
        && kernel.mappings == if Mapped(was) then old(kernel.mappings) - {segp.slot} else old(kernel.mappings)
      ensures State() == old(State()).(slots := old(Slots())[segp.slot := segp.View()])
    {
      SlotOf(segp);
      SlotChangeKeepsMappings(Slots(), segp.slot, Unmapped(segp.View()), kernel.mappings);
      assert Mapped(segp.View()) ==>
        segp.slot in kernel.mappings && kernel.mappings[segp.slot] == Region(segp.start.value, segp.length);
      hide MappingsConserved, OwnedSet;
      if segp.start == None || segp.flags.maps {
        OneSlotChanged(segp);
        return;
      }
      match segp.kind {
        case Anon | File =>
          kernel.Unmap(segp.slot, segp.start.value, segp.length);
        case Shm =>
          kernel.ShmDetach(segp.slot, segp.start.value);
      }
      segp.start := None;
      OneSlotChanged(segp);
    }

    method GetSegment(name: string) returns (segp: Segment?)
      requires Intact()
      modifies `avail, `segs, seglist
      ensures Intact()
      ensures State() == Lookup(old(State()), name).0 && (segp == null <==> Lookup(old(State()), name).1.None?)
      ensures avail != null ==> avail in old(segs) || fresh(avail)
      ensures old(segs) <= segs && forall i | |old(segs)| <= i < |segs| :: fresh(segs[i])
      ensures Dict(Slots()) == old(Dict(Slots()))
      ensures segp != null <==> name in Dict(Slots())
      ensures segp != null ==> segp in segs && segs == old(segs) && !segp.kind.Free? && segp.name == name && segp.View() == Dict(Slots())[name]
    {
      hide Sound, Dict, Find, MappingsConserved, Lookup, Shape;
      LookupKeepsSound(State(), name, kernel.handles, pages, peak);
      segp := Get(name);
      if segp != null {
        SlotOf(segp);
      }
    }

    method OpenFile(segp: Segment, status: FileStatus) returns (ok: bool)
      requires Shape() && segp in segs && HandlesConserved(Slots(), kernel.handles)
      requires segp.kind.File? && segp.fd == None && segp.prot == Prot(true, true, false)
      modifies `avail, segp, kernel`handles, kernel`requests
      ensures kernel.requests == old(kernel.requests) + if Opens(status) then 1 else 0
      ensures Shape()
      ensures ok ==>
        && status.exists_ && status.regular && (status.readable || status.writable) && segp.fd.Some?
        && segp.View() == old(segp.View()).(fd := segp.fd, prot := Prot(status.readable, status.writable, false))
        && State() == old(State()).(slots := old(Slots())[segp.slot := segp.View()])
        && FileHandle(segp.fd.value) !in old(kernel.handles)
        && kernel.handles == old(kernel.handles) + {FileHandle(segp.fd.value)}
      ensures !ok ==> State() == Release(old(State()), segp.slot) && kernel.handles == old(kernel.handles)
    {
      if !status.exists_ || !status.regular || (!status.readable && !status.writable) {
        FreeSegSlot(segp);
        return false;
      }
      var fd := kernel.Open();
      if fd == None {
        FreeSegSlot(segp);
        return false;
      }
      if status.readable && !status.writable {
        segp.prot := segp.prot.(write := false);
      } else if !status.readable {
        segp.prot := segp.prot.(read := false);
      }
      segp.fd := fd;
      OneSlotChanged(segp);
      ok := true;
    }

    method GetShmSegment(segp: Segment) returns (ok: bool)
      requires Shape() && segp in segs && HandlesConserved(Slots(), kernel.handles)
      requires segp.kind.Shm? && segp.shmid == None
      modifies `avail, segp, kernel`handles, kernel`requests
      ensures kernel.requests == old(kernel.requests) + 1
      ensures Shape()
      ensures ok ==>
        && segp.shmid.Some? && 0 < segp.length
        && segp.View() == Rounded(old(segp.View()), if old(segp.flags).huge then pages.huge else pages.base).(shmid := segp.shmid)
        && State() == old(State()).(slots := old(Slots())[segp.slot := segp.View()])
        && (forall h | h in old(kernel.handles) && h.ShmHandle? :: h.shmid != segp.shmid.value)
        && kernel.handles == old(kernel.handles) + {ShmHandle(segp.shmid.value, segp.length)}
      ensures !ok ==> State() == Release(old(State()), segp.slot) && kernel.handles == old(kernel.handles)
    {
      hide RoundUp, RoundDown, HandlesConserved;
      segp.Round(if segp.flags.huge then pages.huge else pages.base);
      OneSlotChanged(segp);
      KeepHandles(old(Slots()), Slots(), kernel.handles);
      ReleaseOverwrites(old(State()), segp.slot, segp.View());
      var id := kernel.ShmGet(segp.length);
      if id == None {
        FreeSegSlot(segp);
        return false;
      }
      segp.shmid := id;
      OneSlotChanged(segp);
      ok := true;
    }

    /** An entry from the process's memory map, which owns nothing. */
    method AdoptMapping(segp: Segment, path: string, start: nat)
      requires Shape() && segp in segs && segp.start == None && segp.prot == Prot(true, true, false)
      modifies segp
      ensures Shape() && State() == old(State()).(slots := old(Slots())[segp.slot := segp.View()])
      ensures segp.View() == var s := old(segp.View()).(start := Some(start));
        if s.kind.File? then s.(path := Some(path), prot := Prot(true, true, true)) else s
    {
      segp.start := Some(start);
      if segp.kind.File? {
        segp.path := Some(path);
        segp.prot := segp.prot.(exec := true);
      }
      OneSlotChanged(segp);
    }

    /** The path of a new file entry, and its descriptor. */
    method OpenPath(segp: Segment, ghost name: string, path: string, ghost range: Range, ghost start: nat, flags: Flags,
                    status: FileStatus) returns (ok: bool)
      requires Shape() && segp in segs && HandlesConserved(Slots(), kernel.handles)
      requires segp.View() == Fresh(File, name, range, flags) && !flags.maps
      modifies `avail, segp, kernel`handles, kernel`requests
      ensures kernel.requests == old(kernel.requests) + if Opens(status) then 1 else 0
      ensures Shape()
      ensures ok ==>
        && NewEntry(segp.View(), File, name, path, range, start, flags, status, pages, old(kernel.handles), kernel.handles)
        && State() == old(State()).(slots := old(Slots())[segp.slot := segp.View()])
        && Acquired(segp.View(), old(kernel.handles), kernel.handles)
      ensures !ok ==> State() == Release(old(State()), segp.slot) && kernel.handles == old(kernel.handles)
    {
      hide Release, HandlesConserved, Shape, NewEntry, Acquired, Opens;
      segp.path := Some(path);
      OneSlotChanged(segp);
      KeepHandles(old(Slots()), Slots(), kernel.handles);
      ReleaseOverwrites(old(State()), segp.slot, segp.View());
      ok := OpenFile(segp, status);
      if ok {
        NewFromFile(segp.View(), name, path, range, start, flags, status, pages, old(kernel.handles), segp.fd.value);
      }
    }

    /** The shared memory of a new entry. */
    method GetShm(segp: Segment, ghost name: string, ghost path: string, ghost range: Range, ghost start: nat, flags: Flags,
                  ghost status: FileStatus) returns (ok: bool)
      requires Shape() && segp in segs && HandlesConserved(Slots(), kernel.handles)
      requires segp.View() == Fresh(Shm, name, range, flags) && !flags.maps
      modifies `avail, segp, kernel`handles, kernel`requests
      ensures kernel.requests == old(kernel.requests) + 1
      ensures Shape()
      ensures ok ==>
        && NewEntry(segp.View(), Shm, name, path, range, start, flags, status, pages, old(kernel.handles), kernel.handles)
        && State() == old(State()).(slots := old(Slots())[segp.slot := segp.View()])
        && Acquired(segp.View(), old(kernel.handles), kernel.handles)
      ensures !ok ==> State() == Release(old(State()), segp.slot) && kernel.handles == old(kernel.handles)
    {
      hide Release, HandlesConserved, Rounded, Shape, NewEntry, Acquired, State, Slots;
      ok := GetShmSegment(segp);
      if ok {
        NewFromShm(segp.View(), name, path, range, start, flags, status, pages, old(kernel.handles), segp.shmid.value);
      }
    }

    /** A new entry that asks the kernel for nothing. */
    method Adopt(segp: Segment, kind: Kind, ghost name: string, path: string, ghost range: Range, start: nat, flags: Flags,
                 ghost status: FileStatus)
      requires Shape() && segp in segs && segp.View() == Fresh(kind, name, range, flags) && (flags.maps || kind.Anon?)
      modifies segp
      ensures Shape()
      ensures NewEntry(segp.View(), kind, name, path, range, start, flags, status, pages, kernel.handles, kernel.handles)
      ensures State() == old(State()).(slots := old(Slots())[segp.slot := segp.View()])
      ensures Acquired(segp.View(), kernel.handles, kernel.handles)
    {
      hide Shape, NewEntry, Acquired, State, Slots;
      if flags.maps {
        AdoptMapping(segp, path, start);
        NewFromMaps(segp.View(), kind, name, path, range, start, flags, status, pages, kernel.handles);
      } else {
        SameSlot(segp);
        NewAnon(segp.View(), name, path, range, start, flags, status, pages, kernel.handles);
      }
    }

    /** The part of registration after the common fields are set, by kind of segment. */
    method Complete(segp: Segment, kind: Kind, ghost name: string, path: string, ghost range: Range, start: nat, flags: Flags,
                    status: FileStatus) returns (ok: bool)
      requires Shape() && segp in segs && HandlesConserved(Slots(), kernel.handles)
      requires segp.View() == Fresh(kind, name, range, flags) && !kind.Free?
      modifies `avail, segp, kernel`handles, kernel`requests
      ensures kernel.requests == old(kernel.requests) + Requests(kind, flags, status)
      ensures Shape()
      ensures ok ==>
        && NewEntry(segp.View(), kind, name, path, range, start, flags, status, pages, old(kernel.handles), kernel.handles)
        && State() == old(State()).(slots := old(Slots())[segp.slot := segp.View()])
        && Acquired(segp.View(), old(kernel.handles), kernel.handles)
      ensures !ok ==> State() == Release(old(State()), segp.slot) && kernel.handles == old(kernel.handles)
      ensures !ok ==> !flags.maps && !kind.Anon?
    {
      hide Release, HandlesConserved, Shape, NewEntry, Acquired, Opens, State, Slots, Fresh;
      ok := true;
      if flags.maps || kind.Anon? {
        Adopt(segp, kind, name, path, range, start, flags, status);
      } else if kind.File? {
        ok := OpenPath(segp, name, path, range, start, flags, status);
      } else {
        ok := GetShm(segp, name, path, range, start, flags, status);
      }
    }

    /** The allocator's slot with the common fields of a new entry. */
    method NewSegment(kind: Kind, name: string, range: Range, flags: Flags) returns (segp: Segment?)
      requires Shape() && WellFormed(State()) && HandlesConserved(Slots(), kernel.handles)
      requires avail == null ==> Allocate(State()) == (State(), None)
      modifies `avail, `segs, seglist, avail
      ensures Shape() && HandlesConserved(Slots(), kernel.handles) && segs == old(segs)
      ensures segp == old(avail)
      ensures segp == null ==> State() == old(State())
      ensures segp != null ==>
        && segp in segs && segp.View() == Fresh(kind, name, range, flags)
        && State() == Table(old(Slots())[segp.slot := segp.View()], None)
    {
      ghost var t := State();
      if avail != null { ReleaseUndoesAllocate(t); }
      hide WellFormed, HandlesConserved, Allocate;
      segp := GetSegSlot();
      if segp != null {
        segp.Init(kind, name, range, flags);
        OneSlotChanged(segp);
        KeepHandles(t.slots, Slots(), kernel.handles);
      }
    }

    /** Allocate a slot and enter the segment in it; a failure gives the slot back. `v` is the new entry. */
    method Enter(kind: Kind, name: string, path: string, range: Range, start: nat, flags: Flags, status: FileStatus)
      returns (r: Outcome, ghost v: Slot)
      requires Shape() && WellFormed(State()) && HandlesConserved(Slots(), kernel.handles) && !kind.Free?
      requires avail == null ==> Allocate(State()) == (State(), None)
      modifies `avail, `segs, seglist, avail, kernel`handles, kernel`requests
      ensures kernel.requests == old(kernel.requests) + if r == TableFull then 0 else Requests(kind, flags, status)
      ensures Shape()
      ensures segs == old(segs)
      ensures r == TableFull <==> old(avail) == null
      ensures if r == Done then
                && State() == Table(old(Slots())[old(avail).slot := v], None)
                && NewEntry(v, kind, name, path, range, start, flags, status, pages, old(kernel.handles), kernel.handles)
                && Acquired(v, old(kernel.handles), kernel.handles)
              else
                && State() == old(State()) && kernel.handles == old(kernel.handles)
                && (r == TableFull || (r == Refused && !flags.maps && !kind.Anon?))
    {
      ghost var t := State();
      hide WellFormed, HandlesConserved, NewEntry, Allocate, Release, Acquired;
      v := ZEROED;
      var segp := NewSegment(kind, name, range, flags);
      if segp == null {
        return TableFull, v;
      }
      ReleaseUndoesAllocate(t);
      ReleaseOverwrites(t.(avail := None), segp.slot, Fresh(kind, name, range, flags));
      var ok := Complete(segp, kind, name, path, range, start, flags, status);
      r, v := if ok then Done else Refused, segp.View();
    }

    /** Registration of a name that a lookup has just missed. */
    method RegisterNew(kind: Kind, name: string, path: string, range: Range, start: nat, flags: Flags, status: FileStatus)
      returns (r: Outcome)
      requires Intact() && !kind.Free? && (flags.maps ==> !kind.Shm?)
      requires name !in Dict(Slots()) && (avail == null <==> |Dict(Slots())| == MAX_SEGMENTS)
      requires avail == null ==> Allocate(State()) == (State(), None)
      modifies `avail, `segs, `peak, seglist, avail, kernel`handles, kernel`requests
      ensures kernel.requests == old(kernel.requests) + if r == TableFull then 0 else Requests(kind, flags, status)
      ensures Intact() && segs == old(segs) && peak == Max(old(peak), |Dict(Slots())|)
      ensures RegisterResult(r, kind, name, path, range, start, flags, status, pages,
                             old(Dict(Slots())), Dict(Slots()), old(kernel.handles), kernel.handles)
    {
      hide Sound, Shape, MappingsConserved, Dict, NewEntry, Lookup, Allocate, WellFormed, HandlesConserved, Acquired, RegisterResult;
      hide PairwiseDisjoint, Max;
      ghost var t := State();
      SoundParts(t, kernel.handles, pages, peak);
      ghost var v;
      r, v := Enter(kind, name, path, range, start, flags, status);
      if r == Done {
        RegistrationSucceeds(t, t.avail.value, v, kind, name, path, range, start, flags, status, pages,
                             old(kernel.handles), kernel.handles, peak, kernel.mappings);
        peak := Max(peak, |Dict(t.slots)| + 1);
      } else {
        RegistrationFails(r, kind, name, path, range, start, flags, status, pages, Dict(t.slots), kernel.handles);
        PeakIsReached(t, kernel.handles, pages, peak);
      }
    }

    method Register(kind: Kind, name: string, path: string, range: Range, start: nat, flags: Flags, status: FileStatus)
      returns (r: Outcome)
      requires Intact() && !kind.Free? && (flags.maps ==> !kind.Shm?)
      modifies `avail, `segs, `peak, seglist, segs, kernel`handles, kernel`requests
      ensures var d := old(Dict(Slots()));
        kernel.requests == old(kernel.requests) + if name in d || |d| == MAX_SEGMENTS then 0 else Requests(kind, flags, status)
      ensures Intact() && peak == Max(old(peak), |Dict(Slots())|)
      ensures old(segs) <= segs && forall i | |old(segs)| <= i < |segs| :: fresh(segs[i])
      ensures RegisterResult(r, kind, name, path, range, start, flags, status, pages,
                             old(Dict(Slots())), Dict(Slots()), old(kernel.handles), kernel.handles)
    {
      ghost var t0 := State();
      hide Sound, Shape, MappingsConserved, Dict, Lookup, Allocate, WellFormed, HandlesConserved, PairwiseDisjoint, NewEntry, Max;
      var segp := GetSegment(name);
      if segp != null {
        r := if flags.maps then Done else AlreadyExists;
        PeakIsReached(State(), kernel.handles, pages, peak);
        assert RegisterResult(r, kind, name, path, range, start, flags, status, pages,
                              Dict(t0.slots), Dict(t0.slots), kernel.handles, kernel.handles);
      } else {
        SoundParts(t0, old(kernel.handles), pages, peak);
        AllocateAfterMiss(t0, name);
        r := RegisterNew(kind, name, path, range, start, flags, status);
      }
    }

    /** Unmapping and freeing one entry. */
    method Discard(segp: Segment)
      requires Intact() && segp in segs && !segp.kind.Free?
      modifies `avail, segp, kernel`handles, kernel`mappings
      ensures Intact() && Dict(Slots()) == old(Dict(Slots())) - {old(segp.name)}
      ensures kernel.handles == old(kernel.handles) - OwnedSet(old(segp.View()))
    {
      hide Sound, Shape, MappingsConserved, Dict, PairwiseDisjoint, HandlesConserved, Release, Owned, Mapped, Unmapped;
      SlotOf(segp);
      DiscardKeepsSound(State(), segp.slot, kernel.handles, kernel.mappings, pages, peak);
      UnmapSegment(segp);
      FreeSegSlot(segp);
    }

    method Remove(name: string) returns (r: Outcome)
      requires Intact()
      modifies `avail, `segs, seglist, segs, kernel`handles, kernel`mappings
      ensures Intact()
      ensures old(segs) <= segs && forall i | |old(segs)| <= i < |segs| :: fresh(segs[i])
      ensures var d := old(Dict(Slots()));
        if name !in d || d[name].flags.maps then
          && r == (if name !in d then NoSuch else Denied)
          && Dict(Slots()) == d && kernel.handles == old(kernel.handles)
        else
          && r == Done
          && Dict(Slots()) == d - {name} && kernel.handles == old(kernel.handles) - OwnedSet(d[name])
    {
      hide Sound, Shape, MappingsConserved, Dict, Lookup, PairwiseDisjoint, OwnedSet;
      var segp := GetSegment(name);
      if segp == null {
        r := NoSuch;
      } else if segp.flags.maps {
        r := Denied;
      } else {
        r := Done;
        Discard(segp);
      }
    }

    method Unmap(name: string) returns (r: Outcome)
      requires Intact()
      modifies `avail, `segs, seglist, segs, kernel`mappings
      ensures Intact()
      ensures old(segs) <= segs && forall i | |old(segs)| <= i < |segs| :: fresh(segs[i])
      ensures var d := old(Dict(Slots()));
        if name !in d || d[name].flags.maps then
          r == (if name !in d then NoSuch else Denied) && Dict(Slots()) == d
        else
          r == Done && Dict(Slots()) == d[name := if Mapped(d[name]) then Unmapped(d[name]) else d[name]]
    {
      hide Sound, Shape, MappingsConserved, Dict, Lookup, PairwiseDisjoint, HandlesConserved;
      var segp := GetSegment(name);
      if segp == null {
        r := NoSuch;
      } else if segp.flags.maps {
        r := Denied;
      } else {
        r := Done;
        SlotOf(segp);
        FewerStayDisjoint(kernel.mappings, segp.slot);
        UnmapKeepsSound(State(), segp.slot, kernel.handles, kernel.mappings, pages, peak);
        UnmapSegment(segp);
      }
    }

    /** mmap() or shmat() for a prepared entry; only an anonymous entry with an offset asks for an address. */
    method Attach(segp: Segment) returns (start: Option<nat>)
      requires CanAttach(segp.View(), segp.slot, kernel.handles, kernel.mappings, pages)
      modifies kernel`mappings, kernel`fixedUsed, kernel`requests
      ensures kernel.requests == old(kernel.requests) + 1
      ensures kernel.fixedUsed == (old(kernel.fixedUsed) || Fixed(segp.View()))
      ensures Attached(segp.View(), segp.slot, start, old(kernel.mappings), kernel.mappings)
    {
      if segp.kind.Shm? {
        start := kernel.ShmAttach(segp.slot, segp.shmid.value, segp.length, segp.pagesize);
      } else {
        start := kernel.Map(segp.slot, segp.kind.Anon? && segp.offset != 0, segp.offset, segp.length, pages.base);
      }
    }

    /** A mapping attempt on an entry that is not mapped. */
    method MapEntry(segp: Segment, range: Option<Range>, flags: Flags, fileSize: Word) returns (r: Outcome)
      requires Intact() && segp in segs && !segp.kind.Free? && segp.start == None && !flags.maps
      modifies segp, kernel`mappings, kernel`fixedUsed, kernel`requests
      ensures kernel.requests == old(kernel.requests) + if Prepare(old(segp.View()), range, flags, fileSize, pages.base).1 then 1 else 0
      ensures Intact()
      ensures MapResult(r, old(segp.View()), segp.View(), range, flags, fileSize, pages, segp.slot,
                        old(kernel.mappings), kernel.mappings)
      ensures Dict(Slots()) == old(Dict(Slots()))[old(segp.name) := segp.View()]
      ensures kernel.fixedUsed ==> old(kernel.fixedUsed) || Fixed(segp.View())
    {
      hide Sound, Shape, MappingsConserved, Dict, PairwiseDisjoint, Prepare, CanAttach, MapResult;
      ghost var t, i := State(), segp.slot;
      SlotOf(segp);
      AttemptStarts(t, i, range, flags, fileSize, pages, kernel.handles, kernel.mappings, peak);
      var reached := segp.PrepareMap(range, flags, fileSize, pages.base);
      var start := None;
      if reached {
        start := Attach(segp);
      }
      AttemptEnds(t, i, range, flags, fileSize, pages, start, kernel.handles, old(kernel.mappings), kernel.mappings, peak);
      segp.start := start;
      OneSlotChanged(segp);
      r := if start.Some? then Done else Refused;
    }

    method Map(name: string, range: Option<Range>, flags: Flags, fileSize: Word) returns (r: Outcome, ghost slot: nat)
      requires Intact() && !flags.maps
      modifies `avail, `segs, seglist, segs, kernel`mappings, kernel`fixedUsed, kernel`requests
      ensures var d := old(Dict(Slots()));
        kernel.requests == old(kernel.requests) +
          if name in d && d[name].start.None? && Prepare(d[name], range, flags, fileSize, pages.base).1 then 1 else 0
      ensures Intact()
      ensures old(segs) <= segs && forall i | |old(segs)| <= i < |segs| :: fresh(segs[i])
      ensures var d := old(Dict(Slots()));
        if name !in d || d[name].start.Some? then
          && r == (if name !in d then NoSuch else Done)
          && Dict(Slots()) == d && kernel.mappings == old(kernel.mappings) && kernel.fixedUsed == old(kernel.fixedUsed)
        else
          && name in Dict(Slots()) && Dict(Slots()) == d[name := Dict(Slots())[name]]
          && MapResult(r, d[name], Dict(Slots())[name], range, flags, fileSize, pages, slot, old(kernel.mappings), kernel.mappings)
          && (kernel.fixedUsed ==> old(kernel.fixedUsed) || Fixed(Dict(Slots())[name]))
    {
      hide Sound, Shape, MappingsConserved, Dict, Lookup, PairwiseDisjoint, MapResult;
      slot := 0;
      var segp := GetSegment(name);
      if segp == null {
        r := NoSuch;
      } else if segp.start != None {
        r := Done;
      } else {
        slot := segp.slot;
        r := MapEntry(segp, range, flags, fileSize);
      }
    }

    /** At exit: releases every shared memory entry, mapped or not. */
    method Cleanup()
      requires Valid()
      modifies `avail, segs, kernel`handles
      ensures Valid()
      ensures forall h | h in kernel.handles :: h.FileHandle?
      ensures SameFiles(old(kernel.handles), kernel.handles)
      ensures Dict(Slots()) == map n | n in old(Dict(Slots())) && !old(Dict(Slots()))[n].kind.Shm? :: old(Dict(Slots()))[n]
    {
      ghost var t0 := State();
      hide Sound, WellFormed, HandlesConserved, Dict, Release, CleanedUpTo, SameFiles, OwnedSet, Shape;
      SoundParts(t0, kernel.handles, pages, peak);
      CleanNothing(t0.slots, kernel.handles);
      var i := 0;
      SegAt(0);
      while seglist[i] != null
        invariant i <= |segs| && Valid() && i < seglist.Length && (seglist[i] == null <==> i == |segs|)
        invariant CleanedUpTo(t0.slots, Slots(), i) && SameFiles(old(kernel.handles), kernel.handles)
        decreases |segs| - i
        modifies `avail, segs, kernel`handles
      {
        SegAt(i);
        CleanOneSlot(t0, State(), i, old(kernel.handles), kernel.handles, pages, peak);
        if seglist[i].kind.Shm? {
          FreeSegSlot(seglist[i]);
        }
        i := i + 1;
        SegAt(i);
      }
      CleanupIsComplete(t0, State(), kernel.handles, pages, peak);
    }

    /** segment_range(): the offset and length fields of an entry. */
    method SegmentRange(name: string) returns (r: Option<Range>)
      requires Intact()
      modifies `avail, `segs, seglist
      ensures Intact() && Dict(Slots()) == old(Dict(Slots()))
      ensures old(segs) <= segs && forall i | |old(segs)| <= i < |segs| :: fresh(segs[i])
      ensures var d := old(Dict(Slots())); r == if name in d then Some(Range(d[name].offset, d[name].length)) else None
    {
      hide Sound, Shape, MappingsConserved, Dict, Lookup, PairwiseDisjoint;
      var segp := GetSegment(name);
      r := None;
      if segp != null {
        r := Some(Range(segp.offset, segp.length));
      }
    }

    /** mbind on a range: the window passed to the system call. */
    method Mbind(name: string, range: Range) returns (r: Outcome, w: Region)
      requires Intact()
      modifies `avail, `segs, seglist
      ensures Intact() && Dict(Slots()) == old(Dict(Slots()))
      ensures old(segs) <= segs && forall i | |old(segs)| <= i < |segs| :: fresh(segs[i])
      ensures (r, w) == RangeAnswer(old(Dict(Slots())), name, range, MBIND)
    {
      hide Sound, Shape, MappingsConserved, Dict, Lookup, PairwiseDisjoint, RoundUp, RoundDown;
      var segp := GetSegment(name);
      r, w := NoSuch, NO_REGION;
      if segp != null {
        if segp.start == None {
          r := NotMapped;
        } else {
          r, w := ClipSegment(segp, range);
        }
      }
    }

    /** The window computation that the range commands share. */
    method ClipSegment(segp: Segment, range: Range) returns (r: Outcome, w: Region)
      ensures match Clip(range, segp.length, segp.pagesize)
        case None => r == PastEnd && w == NO_REGION
        case Some(v) => r == Done && w == v
    {
      hide RoundUp, RoundDown;
      r, w := PastEnd, NO_REGION;
      var offset := RoundDown(range.offset, segp.pagesize);
      if offset < segp.length {
        var maxLength := segp.length - offset;
        var length := range.length;
        if length != 0 {
          length := RoundUp(length, segp.pagesize);
        }
        if length == 0 || length > maxLength {
          length := maxLength;
        }
        r, w := Done, Region(offset, length);
      }
    }

    /** where on a range: 64 pages when the length is the default. */
    method Location(name: string, range: Range) returns (r: Outcome, w: Region)
      requires Intact()
      modifies `avail, `segs, seglist
      ensures Intact() && Dict(Slots()) == old(Dict(Slots()))
      ensures old(segs) <= segs && forall i | |old(segs)| <= i < |segs| :: fresh(segs[i])
      ensures var d := old(Dict(Slots()));
        (r, w) == RangeAnswer(d, name, if name in d then LocationRange(range, d[name].pagesize) else range, WHERE)
    {
      hide Sound, Shape, MappingsConserved, Dict, Lookup, PairwiseDisjoint, RoundUp, RoundDown;
      var segp := GetSegment(name);
      r, w := NoSuch, NO_REGION;
      if segp != null {
        if segp.start == None {
          r := NotMapped;
        } else {
          r, w := ClipSegment(segp, LocationRange(range, segp.pagesize));
          if r == Done && segp.pagesize == 0 {
            r, w := Killed, NO_REGION;
          }
        }
      }
    }

    /** touch on a range. A mapped segment's window is touched page by page. */
    method Touch(name: string, range: Range, rw: bool, ctx: Context, schedule: seq<Delivery>) returns (r: Outcome, w: Region, touched: nat)
      requires Intact() && forall d | d in schedule :: NonFatal(d)
      modifies `avail, `segs, seglist, ctx
      ensures Intact() && Dict(Slots()) == old(Dict(Slots()))
      ensures old(segs) <= segs && forall i | |old(segs)| <= i < |segs| :: fresh(segs[i])
      ensures (r, w) == RangeAnswer(old(Dict(Slots())), name, range, TouchUse(rw))
      ensures r == Done && Mapped(old(Dict(Slots()))[name]) ==>
        !ctx.sigjmp && TouchResult(old(Dict(Slots()))[name], w, rw, touched, old(ctx.siginfo).Some?, schedule,
                                   old(ctx.accesses), ctx.accesses, old(ctx.memory), ctx.memory)
    {
      hide Sound, Shape, MappingsConserved, Dict, Lookup, PairwiseDisjoint, RoundUp, RoundDown, EntryOk, Touched, Completed, PowerOfTwo;
      var segp := GetSegment(name);
      r, w, touched := NoSuch, NO_REGION, 0;
      if segp != null {
        if rw && segp.flags.maps {
          r := Denied;
        } else {
          r, w := ClipSegment(segp, range);
          if r == Done && segp.pagesize == 0 {
            r, w := Killed, NO_REGION;
          } else if r == Done && !segp.flags.maps && segp.start.Some? {
            SlotOf(segp);
            TouchIsSafe(State(), segp.slot, kernel.handles, pages, peak, range);
            touched := ctx.TouchMemory(rw, segp.start.value + w.start, w.length, segp.pagesize, schedule);
          }
        }
      }
    }
  }
}
