/** Runs of segment commands on one table, as the command loop issues them. */
module Session {
  import opened Wrappers
  import opened Words
  import opened PageWindow
  import opened SlotTable
  import opened Kernel
  import opened Entries
  import opened TableInvariant
  import opened SegmentTable
  import opened TouchMemory
  import opened AnonChain

  datatype Command =
    | AddAnon(name: string, range: Range, flags: Flags)
    | AddAnonAfter(name: string, length: Word, flags: Flags, prev: string)
    | AddFile(name: string, path: string, range: Range, flags: Flags, status: FileStatus)
    | AddShm(name: string, range: Range, flags: Flags)
    | RemoveSegment(name: string)
    | MapSegment(name: string, whole: Option<Range>, flags: Flags, fileSize: Word)
    | UnmapSegment(name: string)
    | MbindRange(name: string, range: Range)
    | LocateRange(name: string, range: Range)
    | TouchRange(name: string, range: Range, rw: bool, schedule: seq<Delivery>)

  /** Flags never carry the memory-map mark, and signals do not kill the process. */
  ghost predicate Acceptable(cmd: Command) {
    match cmd
    case AddAnon(_, _, flags) => !flags.maps
    case AddAnonAfter(_, _, flags, _) => !flags.maps
    case AddFile(_, _, _, flags, _) => !flags.maps
    case AddShm(_, _, flags) => !flags.maps
    case MapSegment(_, _, flags, _) => !flags.maps
    case TouchRange(_, _, _, schedule) => forall d | d in schedule :: NonFatal(d)
    case _ => true
  }

  predicate NamesAddress(cmd: Command) {
    (cmd.AddAnon? && cmd.range.offset != 0) || cmd.AddAnonAfter?
  }

  /** What a table and its kernel stand for. */
  datatype Abstract = Abstract(dict: map<string, Slot>, handles: set<Handle>, mappings: map<nat, Region>)

  const NOTHING := Abstract(map[], {}, map[])

  ghost function Abs(table: SegmentTable): Abstract
    reads table, table.segs, table.kernel
  {
    Abstract(Dict(table.Slots()), table.kernel.handles, table.kernel.mappings)
  }

  /** What a command answers, and the window of a range command. */
  datatype Answer = Answer(outcome: Outcome, window: Region)

  predicate Died(rs: seq<Answer>) {
    rs != [] && rs[|rs| - 1].outcome == Killed
  }

  predicate Survived(rs: seq<Answer>) {
    forall r | r in rs :: r.outcome != Killed
  }

  function Plain(r: Outcome): Answer { Answer(r, NO_REGION) }

  const NO_FILE := FileStatus(false, false, false, false)

  /** A registration's answer and effect. */
  ghost predicate Registered(r: Outcome, kind: Kind, name: string, path: string, range: Range, flags: Flags, status: FileStatus,
                             a: Abstract, b: Abstract, pages: PageSizes) {
    && RegisterResult(r, kind, name, path, range, 0, flags, status, pages, a.dict, b.dict, a.handles, b.handles)
    && b.mappings == a.mappings
  }

  ghost predicate Removed(r: Outcome, name: string, a: Abstract, b: Abstract) {
    if name !in a.dict || a.dict[name].flags.maps then
      r == (if name !in a.dict then NoSuch else Denied) && b.dict == a.dict && b.handles == a.handles
    else
      r == Done && b.dict == a.dict - {name} && b.handles == a.handles - OwnedSet(a.dict[name])
  }

  ghost predicate Unmapping(r: Outcome, name: string, a: Abstract, b: Abstract) {
    && b.handles == a.handles
    && if name !in a.dict || a.dict[name].flags.maps then
         r == (if name !in a.dict then NoSuch else Denied) && b.dict == a.dict
       else
         r == Done && b.dict == a.dict[name := if Mapped(a.dict[name]) then Unmapped(a.dict[name]) else a.dict[name]]
  }

  ghost predicate Mapping(r: Outcome, name: string, range: Option<Range>, flags: Flags, fileSize: Word,
                          a: Abstract, b: Abstract, pages: PageSizes) {
    && b.handles == a.handles
    && if name !in a.dict || a.dict[name].start.Some? then
         r == (if name !in a.dict then NoSuch else Done) && b == a
       else
         && name in b.dict && b.dict == a.dict[name := b.dict[name]]
         && exists slot: nat ::
              MapResult(r, a.dict[name], b.dict[name], range, flags, fileSize, pages, slot, a.mappings, b.mappings)
  }

  /** What each command answers and does, in terms of the map of segments and the kernel's objects. */
  ghost predicate Effect(cmd: Command, r: Answer, a: Abstract, b: Abstract, pages: PageSizes) {
    && (cmd.MbindRange? || cmd.LocateRange? || cmd.TouchRange? || r.window == NO_REGION)
    && match cmd
       case AddAnon(name, range, flags) => Registered(r.outcome, Anon, name, "", range, flags, NO_FILE, a, b, pages)
       case AddAnonAfter(name, length, flags, prev) =>
         if prev !in a.dict then r == Plain(NoSuch) && b == a
         else Registered(r.outcome, Anon, name, "", Range(NextOffset(a.dict[prev]), length), flags, NO_FILE, a, b, pages)
       case AddFile(name, path, range, flags, status) => Registered(r.outcome, File, name, path, range, flags, status, a, b, pages)
       case AddShm(name, range, flags) => Registered(r.outcome, Shm, name, "", range, flags, NO_FILE, a, b, pages)
       case RemoveSegment(name) => Removed(r.outcome, name, a, b)
       case MapSegment(name, range, flags, fileSize) => Mapping(r.outcome, name, range, flags, fileSize, a, b, pages)
       case UnmapSegment(name) => Unmapping(r.outcome, name, a, b)
       case MbindRange(name, range) => (r.outcome, r.window) == RangeAnswer(a.dict, name, range, MBIND) && b == a
       case LocateRange(name, range) =>
         var shown := if name in a.dict then LocationRange(range, a.dict[name].pagesize) else range;
         (r.outcome, r.window) == RangeAnswer(a.dict, name, shown, WHERE) && b == a
       case TouchRange(name, range, rw, _) => (r.outcome, r.window) == RangeAnswer(a.dict, name, range, TouchUse(rw)) && b == a
  }

  // ---- Runs without addresses ----

  /** No anonymous entry asks for an address. */
  ghost predicate NoneFixed(dict: map<string, Slot>) {
    forall n | n in dict :: dict[n].kind.Anon? ==> dict[n].offset == 0
  }

  lemma RegisteringNamesNoAddress(r: Outcome, kind: Kind, name: string, path: string, range: Range, flags: Flags,
                                  status: FileStatus, a: Abstract, b: Abstract, pages: PageSizes)
    requires Registered(r, kind, name, path, range, flags, status, a, b, pages)
    requires NoneFixed(a.dict) && !flags.maps && !kind.Free? && (kind.Anon? ==> range.offset == 0)
    ensures NoneFixed(b.dict)
  {
    hide RoundUp, RoundDown;
  }

  lemma MappingNamesNoAddress(r: Outcome, name: string, range: Option<Range>, flags: Flags, fileSize: Word,
                              a: Abstract, b: Abstract, pages: PageSizes)
    requires NoneFixed(a.dict) && Mapping(r, name, range, flags, fileSize, a, b, pages)
    ensures NoneFixed(b.dict)
  {
    hide RoundUp;
  }

  /** A command that names no address keeps every entry from asking for one. */
  lemma EffectNamesNoAddress(cmd: Command, r: Answer, a: Abstract, b: Abstract, pages: PageSizes)
    requires Effect(cmd, r, a, b, pages) && Acceptable(cmd) && !NamesAddress(cmd) && NoneFixed(a.dict)
    ensures NoneFixed(b.dict)
  {
    hide Registered, Mapping, RangeAnswer, LocationRange;
    match cmd
    case AddAnon(name, range, flags) => RegisteringNamesNoAddress(r.outcome, Anon, name, "", range, flags, NO_FILE, a, b, pages);
    case AddFile(name, path, range, flags, status) =>
      RegisteringNamesNoAddress(r.outcome, File, name, path, range, flags, status, a, b, pages);
    case AddShm(name, range, flags) => RegisteringNamesNoAddress(r.outcome, Shm, name, "", range, flags, NO_FILE, a, b, pages);
    case MapSegment(name, range, flags, fileSize) => MappingNamesNoAddress(r.outcome, name, range, flags, fileSize, a, b, pages);
    case _ =>
  }

  // ---- What holds between commands ----

  predicate Owns(a: Abstract, name: string, h: Handle) {
    name in a.dict && Owned(a.dict[name]) == Some(h)
  }

  predicate HasMapping(a: Abstract, name: string, slot: nat) {
    && name in a.dict && Mapped(a.dict[name]) && slot in a.mappings
    && a.mappings[slot] == Region(a.dict[name].start.value, a.dict[name].length)
  }

  /** Descriptors, shared memory ids and mapped regions are exactly those of the segments, handles without duplicates. */
  ghost predicate Conserved(a: Abstract) {
    && |a.dict| <= MAX_SEGMENTS
    && (forall h :: h in a.handles <==> exists n :: Owns(a, n, h))
    && (forall m, n, h | Owns(a, m, h) && Owns(a, n, h) :: m == n)
    && (forall slot: nat | slot in a.mappings :: exists n :: HasMapping(a, n, slot))
    && (forall n | n in a.dict && Mapped(a.dict[n]) :: exists slot :: HasMapping(a, n, slot))
  }

  lemma LiveSlotOf(slots: seq<Slot>, name: string) returns (i: nat)
    requires name in Dict(slots)
    ensures i < |slots| && Named(slots[i], name) && slots[i] == Dict(slots)[name]
  {
    i := Find(slots, name);
  }

  lemma HandlesAreOwned(a: Abstract, slots: seq<Slot>)
    requires Distinct(slots) && HandlesConserved(slots, a.handles) && a.dict == Dict(slots)
    ensures forall h :: h in a.handles <==> exists n :: Owns(a, n, h)
    ensures forall m, n, h | Owns(a, m, h) && Owns(a, n, h) :: m == n
  {
    hide Dict, Distinct;
    forall h | h in a.handles
      ensures exists n :: Owns(a, n, h)
    {
      var i: nat :| Holder(slots, i, h);
      DictAt(slots, i);
      assert Owns(a, slots[i].name, h);
    }
    forall n, h | Owns(a, n, h)
      ensures exists i: nat :: Holder(slots, i, h) && slots[i].name == n
    {
      var i := LiveSlotOf(slots, n);
      assert Holder(slots, i, h);
    }
  }

  lemma MappingsAreMapped(a: Abstract, slots: seq<Slot>)
    requires Distinct(slots) && MappingsConserved(slots, a.mappings) && a.dict == Dict(slots)
    ensures forall slot: nat | slot in a.mappings :: exists n :: HasMapping(a, n, slot)
    ensures forall n | n in a.dict && Mapped(a.dict[n]) :: exists slot :: HasMapping(a, n, slot)
  {
    hide Dict, Distinct;
    forall slot: nat | slot in a.mappings
      ensures exists n :: HasMapping(a, n, slot)
    {
      DictAt(slots, slot);
      assert HasMapping(a, slots[slot].name, slot);
    }
    forall n | n in a.dict && Mapped(a.dict[n])
      ensures exists slot :: HasMapping(a, n, slot)
    {
      var i := LiveSlotOf(slots, n);
      assert HasMapping(a, n, i);
    }
  }

  lemma SoundIsDistinct(t: Table, handles: set<Handle>, pages: PageSizes, peak: nat)
    requires Sound(t, handles, pages, peak)
    ensures Distinct(t.slots) && |t.slots| <= MAX_SEGMENTS && |t.slots| <= 1 + peak
  {
  }

  /** In every state between commands the kernel's objects are those of the live segments. */
  lemma TableConserves(table: SegmentTable)
    requires table.Intact()
    ensures Conserved(Abs(table)) && |table.segs| <= 1 + table.peak
    ensures !table.kernel.fixedUsed ==> PairwiseDisjoint(Abs(table).mappings)
  {
    hide Sound, MappingsConserved, PairwiseDisjoint, Dict, HandlesConserved, WellFormed, Distinct, Owns, HasMapping, Live;
    var slots := table.Slots();
    SoundParts(table.State(), table.kernel.handles, table.pages, table.peak);
    SoundIsDistinct(table.State(), table.kernel.handles, table.pages, table.peak);
    HandlesAreOwned(Abs(table), slots);
    MappingsAreMapped(Abs(table), slots);
    LiveIsDictSize(slots);
  }

  // ---- The commands on a table ----

  method Add(table: SegmentTable, cmd: Command) returns (r: Answer)
    requires table.Intact() && Acceptable(cmd) && (cmd.AddAnon? || cmd.AddFile? || cmd.AddShm?)
    modifies table`avail, table`segs, table`peak, table.seglist, table.segs, table.kernel`handles, table.kernel`requests
    ensures table.Intact() && table.peak == Max(old(table.peak), |Dict(table.Slots())|)
    ensures old(table.segs) <= table.segs && forall i | |old(table.segs)| <= i < |table.segs| :: fresh(table.segs[i])
    ensures Effect(cmd, r, old(Abs(table)), Abs(table), table.pages)
  {
    hide RegisterResult, Sound, MappingsConserved, PairwiseDisjoint, Dict, Max;
    match cmd {
      case AddAnon(name, range, flags) =>
        var o := table.Register(Anon, name, "", range, 0, flags, NO_FILE);
        r := Plain(o);
      case AddFile(name, path, range, flags, status) =>
        var o := table.Register(File, name, path, range, 0, flags, status);
        r := Plain(o);
      case AddShm(name, range, flags) =>
        var o := table.Register(Shm, name, "", range, 0, flags, NO_FILE);
        r := Plain(o);
    }
  }

  /** The address that `offset=<prev>` stands for. */
  method OffsetAfter(table: SegmentTable, prev: string) returns (offset: Option<Word>)
    requires table.Intact()
    modifies table`avail, table`segs, table.seglist
    ensures table.Intact() && Abs(table) == old(Abs(table))
    ensures old(table.segs) <= table.segs && forall i | |old(table.segs)| <= i < |table.segs| :: fresh(table.segs[i])
    ensures var d := old(Abs(table)).dict; offset == if prev in d then Some(NextOffset(d[prev])) else None
  {
    hide Sound, MappingsConserved, PairwiseDisjoint, Dict;
    var place := table.SegmentRange(prev);
    offset := None;
    if place != None {
      offset := Some((place.value.offset + place.value.length) % W64);
    }
  }

  /** `anon <name> <length> offset=<prev>`. */
  method AnonAfter(table: SegmentTable, name: string, length: Word, flags: Flags, prev: string) returns (r: Answer)
    requires table.Intact() && !flags.maps
    modifies table`avail, table`segs, table`peak, table.seglist, table.segs, table.kernel`handles, table.kernel`requests
    ensures table.Intact() && table.peak == Max(old(table.peak), |Dict(table.Slots())|)
    ensures old(table.segs) <= table.segs && forall i | |old(table.segs)| <= i < |table.segs| :: fresh(table.segs[i])
    ensures Effect(AddAnonAfter(name, length, flags, prev), r, old(Abs(table)), Abs(table), table.pages)
  {
    hide Sound, MappingsConserved, PairwiseDisjoint, Dict, Max, Effect, NextOffset;
    ghost var a := Abs(table);
    var offset := OffsetAfter(table, prev);
    PeakIsReached(table.State(), table.kernel.handles, table.pages, table.peak);
    if offset == None {
      r := Plain(NoSuch);
    } else {
      r := Add(table, AddAnon(name, Range(offset.value, length), flags));
    }
    AnonAfterEffect(AddAnonAfter(name, length, flags, prev), r, a, Abs(table), table.pages);
  }

  lemma AnonAfterEffect(cmd: Command, r: Answer, a: Abstract, b: Abstract, pages: PageSizes)
    requires cmd.AddAnonAfter?
    requires if cmd.prev !in a.dict then r == Plain(NoSuch) && b == a
      else Effect(AddAnon(cmd.name, Range(NextOffset(a.dict[cmd.prev]), cmd.length), cmd.flags), r, a, b, pages)
    ensures Effect(cmd, r, a, b, pages)
  {
    hide Registered;
  }

  /** remove, map and unmap of an entry. An address is forced only for an entry that has one. */
  method Change(table: SegmentTable, cmd: Command) returns (r: Answer)
    requires table.Intact() && Acceptable(cmd) && (cmd.RemoveSegment? || cmd.MapSegment? || cmd.UnmapSegment?)
    modifies table`avail, table`segs, table.seglist, table.segs, table.kernel
    ensures table.Intact()
    ensures old(table.segs) <= table.segs && forall i | |old(table.segs)| <= i < |table.segs| :: fresh(table.segs[i])
    ensures Effect(cmd, r, old(Abs(table)), Abs(table), table.pages)
    ensures table.kernel.fixedUsed ==> old(table.kernel.fixedUsed) || !NoneFixed(Dict(table.Slots()))
  {
    hide MapResult, Sound, MappingsConserved, PairwiseDisjoint, Dict, Mapped, Unmapped, OwnedSet;
    match cmd {
      case RemoveSegment(name) =>
        var o := table.Remove(name);
        r := Plain(o);
      case UnmapSegment(name) =>
        var o := table.Unmap(name);
        r := Plain(o);
      case MapSegment(name, range, flags, fileSize) =>
        var o;
        ghost var slot;
        o, slot := table.Map(name, range, flags, fileSize);
        r := Plain(o);
    }
  }

  /** mbind, where and touch leave the entries alone. */
  method Use(table: SegmentTable, ctx: Context, cmd: Command) returns (r: Answer)
    requires table.Intact() && Acceptable(cmd) && (cmd.MbindRange? || cmd.LocateRange? || cmd.TouchRange?)
    modifies table`avail, table`segs, table.seglist, ctx
    ensures table.Intact()
    ensures old(table.segs) <= table.segs && forall i | |old(table.segs)| <= i < |table.segs| :: fresh(table.segs[i])
    ensures Effect(cmd, r, old(Abs(table)), Abs(table), table.pages)
  {
    hide Sound, MappingsConserved, PairwiseDisjoint, Dict, TouchResult, RangeAnswer, NonFatal, LocationRange;
    match cmd {
      case MbindRange(name, range) =>
        var o, w := table.Mbind(name, range);
        r := Answer(o, w);
      case LocateRange(name, range) =>
        var o, w := table.Location(name, range);
        r := Answer(o, w);
      case TouchRange(name, range, rw, schedule) =>
        var o, w, touched := table.Touch(name, range, rw, ctx, schedule);
        r := Answer(o, w);
    }
  }

  /** One command: its answer and effect are those of the specification, and the invariant holds on. */
  method Execute(table: SegmentTable, ctx: Context, cmd: Command) returns (r: Answer)
    requires table.Intact() && Acceptable(cmd)
    modifies table`avail, table`segs, table`peak, table.seglist, table.segs, table.kernel, ctx
    ensures table.Intact() && table.peak == Max(old(table.peak), |Dict(table.Slots())|)
    ensures old(table.segs) <= table.segs && forall i | |old(table.segs)| <= i < |table.segs| :: fresh(table.segs[i])
    ensures Effect(cmd, r, old(Abs(table)), Abs(table), table.pages)
    ensures table.kernel.fixedUsed ==> old(table.kernel.fixedUsed) || !NoneFixed(Dict(table.Slots()))
  {
    hide Effect, Sound, MappingsConserved, PairwiseDisjoint, Dict, Max, NoneFixed, Acceptable;
    if cmd.AddAnon? || cmd.AddFile? || cmd.AddShm? {
      r := Add(table, cmd);
    } else if cmd.AddAnonAfter? {
      assert !cmd.flags.maps by { FlagsOf(cmd); }
      r := AnonAfter(table, cmd.name, cmd.length, cmd.flags, cmd.prev);
    } else if cmd.RemoveSegment? || cmd.MapSegment? || cmd.UnmapSegment? {
      r := Change(table, cmd);
    } else {
      r := Use(table, ctx, cmd);
    }
    PeakIsReached(table.State(), table.kernel.handles, table.pages, table.peak);
  }

  lemma FlagsOf(cmd: Command)
    requires Acceptable(cmd) && cmd.AddAnonAfter?
    ensures !cmd.flags.maps
  {
  }

  // ---- What is refused ----

  /** The table holds 63 segments: a new name is refused if there are that many, and never for this reason otherwise. */
  lemma FullTableRefuses(cmd: Command, r: Answer, a: Abstract, b: Abstract, pages: PageSizes)
    requires Effect(cmd, r, a, b, pages) && Acceptable(cmd) && (cmd.AddAnon? || cmd.AddFile? || cmd.AddShm?)
    ensures r.outcome == TableFull <==> cmd.name !in a.dict && |a.dict| == 63
    ensures r.outcome == AlreadyExists <==> cmd.name in a.dict
    ensures r.outcome == Done ==> cmd.name !in a.dict && cmd.name in b.dict
    ensures r.outcome == TableFull || r.outcome == AlreadyExists || r.outcome == Refused ==> b == a
  {
    hide NewEntry;
  }

  /** A command that uses or changes a segment refuses an unknown name, and `offset=` an unknown segment; that changes nothing. */
  lemma UnknownNameIsRefused(cmd: Command, r: Answer, a: Abstract, b: Abstract, pages: PageSizes)
    requires Effect(cmd, r, a, b, pages)
    ensures cmd.AddAnonAfter? ==> (r.outcome == NoSuch <==> cmd.prev !in a.dict)
    ensures cmd.AddAnon? || cmd.AddFile? || cmd.AddShm? ==> r.outcome != NoSuch
    ensures !(cmd.AddAnon? || cmd.AddFile? || cmd.AddShm? || cmd.AddAnonAfter?) ==> (r.outcome == NoSuch <==> cmd.name !in a.dict)
    ensures r.outcome == NoSuch ==> b.dict == a.dict && b.handles == a.handles && r.window == NO_REGION
  {
    hide NewEntry, Clip, LocationRange, NextOffset;
  }

  /** mbind and where refuse a segment that is not mapped. */
  lemma UnmappedRangeIsRefused(cmd: Command, r: Answer, a: Abstract, b: Abstract, pages: PageSizes)
    requires Effect(cmd, r, a, b, pages) && (cmd.MbindRange? || cmd.LocateRange?)
    ensures r.outcome == NoSuch <==> cmd.name !in a.dict
    ensures r.outcome == NotMapped <==> cmd.name in a.dict && a.dict[cmd.name].start.None?
  {
    hide Clip, LocationRange;
  }

  /** touch refuses to write to what was read from the process's memory map, and nothing else. */
  lemma WritingIsDenied(cmd: Command, r: Answer, a: Abstract, b: Abstract, pages: PageSizes)
    requires Effect(cmd, r, a, b, pages) && cmd.TouchRange?
    ensures r.outcome == NoSuch <==> cmd.name !in a.dict
    ensures r.outcome == Denied <==> cmd.name in a.dict && cmd.rw && a.dict[cmd.name].flags.maps
    ensures r.outcome != NotMapped
  {
    hide Clip, LocationRange;
  }

  /**
   * Otherwise the answer is the window: from the page of the offset on, the length in whole pages, to the segment's end if it is
   * 0 or too long. An offset at or beyond the end is refused.
   */
  lemma WindowsAre(cmd: Command, r: Answer, a: Abstract, b: Abstract, pages: PageSizes)
    requires Effect(cmd, r, a, b, pages) && (cmd.MbindRange? || cmd.TouchRange? || cmd.LocateRange?)
    requires cmd.name in a.dict && a.dict[cmd.name].start.Some? && !a.dict[cmd.name].flags.maps
    requires cmd.LocateRange? ==> cmd.range.length < 0xFFFF_FFFF_FFFF_FFFF
    requires var s := a.dict[cmd.name]; PowerOfTwo(s.pagesize) && s.length % s.pagesize == 0
    ensures var (s, range) := (a.dict[cmd.name], cmd.range);
      if s.length <= range.offset then r.outcome == PastEnd && r.window == NO_REGION
      else
        var start := range.offset - range.offset % s.pagesize;
        && r.outcome == Done && r.window.start == start
        && r.window.length ==
             if range.length == 0 then s.length - start else Min(CeilTo(range.length, s.pagesize), s.length - start)
  {
    assert a.dict[cmd.name].pagesize > 0;
    hide Clip, PowerOfTwo, CeilTo, Min;
    ClipIsExact(cmd.range, a.dict[cmd.name].length, a.dict[cmd.name].pagesize);
  }

  // ---- Whole runs ----

  /** The largest number of segments live at once. */
  ghost function Highest(trace: seq<Abstract>): nat {
    if trace == [] then 0 else Max(Highest(trace[..|trace| - 1]), |trace[|trace| - 1].dict|)
  }

  lemma HighestStep(trace: seq<Abstract>, a: Abstract)
    ensures Highest(trace + [a]) == Max(Highest(trace), |a.dict|)
  {
    assert (trace + [a])[..|trace|] == trace;
  }

  /** It is reached and never passed. */
  lemma {:induction false} HighestMeans(trace: seq<Abstract>)
    ensures forall i | 0 <= i < |trace| :: |trace[i].dict| <= Highest(trace)
    ensures trace != [] ==> exists i :: 0 <= i < |trace| && |trace[i].dict| == Highest(trace)
  {
    if trace != [] {
      var init, n := trace[..|trace| - 1], |trace| - 1;
      HighestMeans(init);
      assert forall i | 0 <= i < n :: init[i] == trace[i];
      if init != [] {
        var i :| 0 <= i < |init| && |init[i].dict| == Highest(init);
        assert |trace[i].dict| == Highest(init);
      }
      assert |trace[n].dict| <= Highest(trace);
    }
  }

  /** The states of a run: each command has its specified answer and effect, and the kernel's objects are conserved throughout. */
  ghost predicate Follows(cmds: seq<Command>, rs: seq<Answer>, trace: seq<Abstract>, pages: PageSizes) {
    && |trace| == |cmds| + 1 == |rs| + 1
    && (forall i | 0 <= i < |cmds| :: Effect(cmds[i], rs[i], trace[i], trace[i + 1], pages))
    && (forall i | 0 <= i < |trace| :: Conserved(trace[i]))
  }

  /** The descriptors that are open, and the shared memory ids that exist, are those of the segments, in every state of a run. */
  lemma HandlesInARun(cmds: seq<Command>, rs: seq<Answer>, trace: seq<Abstract>, pages: PageSizes, i: nat)
    requires Follows(cmds, rs, trace, pages) && i < |trace|
    ensures var a := trace[i];
      && |a.dict| <= 63
      && (forall fd: nat :: FileHandle(fd) in a.handles <==> exists n :: n in a.dict && a.dict[n].kind.File? && a.dict[n].fd == Some(fd))
      && (forall id: nat, size: Word :: ShmHandle(id, size) in a.handles <==>
            exists n :: n in a.dict && a.dict[n].kind.Shm? && a.dict[n].shmid == Some(id) && a.dict[n].length == size)
  {
    hide Effect;
    var a := trace[i];
    assert Conserved(a);
    forall fd: nat
      ensures FileHandle(fd) in a.handles <==> exists n :: n in a.dict && a.dict[n].kind.File? && a.dict[n].fd == Some(fd)
    {
      assert forall n :: Owns(a, n, FileHandle(fd)) <==> n in a.dict && a.dict[n].kind.File? && a.dict[n].fd == Some(fd);
    }
    forall id: nat, size: Word
      ensures ShmHandle(id, size) in a.handles <==>
        exists n :: n in a.dict && a.dict[n].kind.Shm? && a.dict[n].shmid == Some(id) && a.dict[n].length == size
    {
      assert forall n :: Owns(a, n, ShmHandle(id, size)) <==>
        n in a.dict && a.dict[n].kind.Shm? && a.dict[n].shmid == Some(id) && a.dict[n].length == size;
    }
  }

  /** A segment that is mapped, other than one read from the memory map, has its region, and every region is such a segment's. */
  lemma MappingsInARun(cmds: seq<Command>, rs: seq<Answer>, trace: seq<Abstract>, pages: PageSizes, i: nat)
    requires Follows(cmds, rs, trace, pages) && i < |trace|
    ensures var a := trace[i];
      && (forall n | n in a.dict && !a.dict[n].kind.Free? && !a.dict[n].flags.maps && a.dict[n].start.Some? ::
            exists slot :: slot in a.mappings && a.mappings[slot] == Region(a.dict[n].start.value, a.dict[n].length))
      && (forall slot | slot in a.mappings ::
            exists n :: n in a.dict && !a.dict[n].flags.maps && a.dict[n].start == Some(a.mappings[slot].start)
                        && a.dict[n].length == a.mappings[slot].length)
  {
    hide Effect;
    var a := trace[i];
    assert Conserved(a);
    forall n | n in a.dict && !a.dict[n].kind.Free? && !a.dict[n].flags.maps && a.dict[n].start.Some?
      ensures exists slot :: slot in a.mappings && a.mappings[slot] == Region(a.dict[n].start.value, a.dict[n].length)
    {
      assert Mapped(a.dict[n]);
      var slot :| HasMapping(a, n, slot);
    }
    forall slot | slot in a.mappings
      ensures exists n :: n in a.dict && !a.dict[n].flags.maps && a.dict[n].start == Some(a.mappings[slot].start)
                          && a.dict[n].length == a.mappings[slot].length
    {
      var n :| HasMapping(a, n, slot);
      assert Mapped(a.dict[n]) && a.mappings[slot] == Region(a.dict[n].start.value, a.dict[n].length);
    }
  }

  /** Apart: no address is in two of the regions. */
  lemma NoAddressTwice(trace: seq<Abstract>, i: nat, j: nat, k: nat, x: nat)
    requires AlwaysApart(trace) && i < |trace| && j in trace[i].mappings && k in trace[i].mappings && j != k
    ensures !(In(x, trace[i].mappings[j]) && In(x, trace[i].mappings[k]))
  {
    assert PairwiseDisjoint(trace[i].mappings);
  }

  ghost predicate AlwaysApart(trace: seq<Abstract>) {
    forall i | 0 <= i < |trace| :: PairwiseDisjoint(trace[i].mappings)
  }

  lemma FollowsStep(cmds: seq<Command>, rs: seq<Answer>, trace: seq<Abstract>, pages: PageSizes,
                    cmd: Command, r: Answer, b: Abstract)
    requires Follows(cmds, rs, trace, pages) && Effect(cmd, r, trace[|trace| - 1], b, pages) && Conserved(b)
    ensures Follows(cmds + [cmd], rs + [r], trace + [b], pages)
    ensures AlwaysApart(trace) && PairwiseDisjoint(b.mappings) ==> AlwaysApart(trace + [b])
  {
    hide Effect, Conserved, PairwiseDisjoint;
  }

  /** No address was ever forced, and none of the entries would force one. */
  ghost predicate Unforced(a: Abstract, fixedUsed: bool) {
    !fixedUsed && NoneFixed(a.dict)
  }

  lemma FirstState(a: Abstract, pages: PageSizes)
    requires Conserved(a)
    ensures Follows([], [], [a], pages) && Highest([a]) == |a.dict|
    ensures PairwiseDisjoint(a.mappings) ==> AlwaysApart([a])
  {
    hide Conserved, PairwiseDisjoint;
    assert [a][..0] == [];
  }

  /** memtoy at its start. */
  method Start(pages: PageSizes) returns (table: SegmentTable)
    requires UsablePages(pages)
    ensures fresh(table) && fresh(table.kernel) && fresh(table.seglist) && table.segs == [] && table.pages == pages
    ensures table.Intact() && table.peak == 0 && !table.kernel.fixedUsed && Abs(table) == NOTHING
    ensures Unforced(Abs(table), false)
  {
    var kernel := new KernelState();
    table := new SegmentTable(kernel, pages);
    StartsSound(pages);
    assert table.Slots() == [];
  }

  lemma StartsSound(pages: PageSizes)
    requires UsablePages(pages)
    ensures Sound(Table([], None), {}, pages, 0) && MappingsConserved([], map[]) && PairwiseDisjoint(map[])
    ensures Dict([]) == map[]
  {
  }

  /** A run of commands `cmds` that has answered `rs`, and in which no command but the last one has killed the process. */
  ghost predicate Running(cmds: seq<Command>, rs: seq<Answer>, trace: seq<Abstract>, pages: PageSizes, now: Abstract, peak: nat) {
    && |rs| <= |cmds| && |trace| == |rs| + 1
    && (if Died(rs) then Survived(rs[..|rs| - 1]) else Survived(rs))
    && Follows(cmds[..|rs|], rs, trace, pages)
    && trace[0] == NOTHING && trace[|rs|] == now && peak == Highest(trace)
  }

  lemma RunningStarts(cmds: seq<Command>, pages: PageSizes)
    requires Conserved(NOTHING)
    ensures Running(cmds, [], [NOTHING], pages, NOTHING, 0)
    ensures PairwiseDisjoint(NOTHING.mappings) ==> AlwaysApart([NOTHING])
  {
    FirstState(NOTHING, pages);
    assert cmds[..0] == [];
    hide Conserved, Follows, Highest, AlwaysApart;
  }

  lemma RunningStep(cmds: seq<Command>, rs: seq<Answer>, trace: seq<Abstract>, pages: PageSizes, now: Abstract, peak: nat,
                    r: Answer, after: Abstract)
    requires Running(cmds, rs, trace, pages, now, peak) && |rs| < |cmds| && !Died(rs)
    requires Effect(cmds[|rs|], r, now, after, pages) && Conserved(after)
    ensures Running(cmds, rs + [r], trace + [after], pages, after, Max(peak, |after.dict|))
    ensures AlwaysApart(trace) && PairwiseDisjoint(after.mappings) ==> AlwaysApart(trace + [after])
  {
    hide Conserved, Follows, Highest, AlwaysApart, Effect, Max, PairwiseDisjoint;
    HighestStep(trace, after);
    FollowsStep(cmds[..|rs|], rs, trace, pages, cmds[|rs|], r, after);
    SurvivedStep(rs, r);
    assert cmds[..|rs|] + [cmds[|rs|]] == cmds[..|rs| + 1];
  }

  lemma RunningResult(cmds: seq<Command>, rs: seq<Answer>, trace: seq<Abstract>, pages: PageSizes, now: Abstract, peak: nat)
    requires Running(cmds, rs, trace, pages, now, peak) && (|rs| == |cmds| || Died(rs))
    ensures |rs| <= |cmds| && (rs != [] ==> Survived(rs[..|rs| - 1])) && (|rs| < |cmds| ==> Died(rs))
    ensures Follows(cmds[..|rs|], rs, trace, pages) && |trace| == |rs| + 1
    ensures trace[0] == NOTHING && trace[|rs|] == now && peak == Highest(trace)
  {
    hide Follows, Highest;
  }

  /** One more command of a run. `named` says that a command of the run names an address. */
  method Continue(table: SegmentTable, ctx: Context, cmds: seq<Command>, rs: seq<Answer>, ghost trace: seq<Abstract>, ghost named: bool)
    returns (r: Answer, ghost after: seq<Abstract>)
    requires table.Intact() && Running(cmds, rs, trace, table.pages, Abs(table), table.peak) && |rs| < |cmds| && !Died(rs)
    requires Acceptable(cmds[|rs|]) && (NamesAddress(cmds[|rs|]) ==> named)
    requires !named ==> Unforced(Abs(table), table.kernel.fixedUsed) && AlwaysApart(trace)
    modifies table`avail, table`segs, table`peak, table.seglist, table.segs, table.kernel, ctx
    ensures table.Intact()
    ensures old(table.segs) <= table.segs && forall i | |old(table.segs)| <= i < |table.segs| :: fresh(table.segs[i])
    ensures |rs + [r]| <= |cmds| && Running(cmds, rs + [r], after, table.pages, Abs(table), table.peak)
    ensures !named ==> Unforced(Abs(table), table.kernel.fixedUsed) && AlwaysApart(after)
  {
    hide Effect, Sound, MappingsConserved, PairwiseDisjoint, Dict, Max, NoneFixed, Acceptable, NamesAddress, Conserved, Follows,
      AlwaysApart, Highest, Running;
    ghost var a, peak := Abs(table), table.peak;
    r := Execute(table, ctx, cmds[|rs|]);
    if !named {
      EffectNamesNoAddress(cmds[|rs|], r, a, Abs(table), table.pages);
    }
    TableConserves(table);
    RunningStep(cmds, rs, trace, table.pages, a, peak, r, Abs(table));
    after := trace + [Abs(table)];
  }

  /**
   * Any commands from an empty table, up to one that kills the process. The answers `rs` and the states of the run are those of
   * the specification, and in every state the descriptors, shared memory ids and mapped regions are exactly those of the live
   * segments. The table never has more slots than one above the largest number of segments live at once. If no command
   * names an address, the mapped regions are pairwise disjoint in every state.
   */
  method Run(pages: PageSizes, ctx: Context, cmds: seq<Command>)
    returns (table: SegmentTable, rs: seq<Answer>, ghost trace: seq<Abstract>)
    requires UsablePages(pages) && forall c | c in cmds :: Acceptable(c)
    modifies ctx
    ensures fresh(table) && fresh(table.kernel) && fresh(table.segs) && fresh(table.seglist)
    ensures table.Intact() && table.pages == pages
    ensures |rs| <= |cmds| && (rs != [] ==> Survived(rs[..|rs| - 1])) && (|rs| < |cmds| ==> Died(rs))
    ensures Follows(cmds[..|rs|], rs, trace, pages) && |trace| == |rs| + 1
    ensures trace[0] == NOTHING && trace[|rs|] == Abs(table)
    ensures |table.segs| <= 1 + Highest(trace)
    ensures (forall c | c in cmds :: !NamesAddress(c)) ==> AlwaysApart(trace)
  {
    hide Sound, MappingsConserved, PairwiseDisjoint, Dict, NoneFixed, Acceptable, NamesAddress, Conserved, Follows, Highest,
      AlwaysApart, Unforced, Running, Survived;
    table := Start(pages);
    ghost var named := exists c | c in cmds :: NamesAddress(c);
    TableConserves(table);
    rs, trace := [], [NOTHING];
    RunningStarts(cmds, pages);
    while |rs| < |cmds| && !Died(rs)
      invariant |rs| <= |cmds| && fresh(table) && fresh(table.kernel) && fresh(table.seglist) && fresh(table.segs)
      invariant table.Intact() && table.pages == pages
      invariant Running(cmds, rs, trace, pages, Abs(table), table.peak)
      invariant !named ==> Unforced(Abs(table), table.kernel.fixedUsed) && AlwaysApart(trace)
      decreases |cmds| - |rs|
    {
      var r;
      r, trace := Continue(table, ctx, cmds, rs, trace, named);
      rs := rs + [r];
    }
    RunningResult(cmds, rs, trace, pages, Abs(table), table.peak);
    TableConserves(table);
  }

  lemma SurvivedStep(rs: seq<Answer>, r: Answer)
    requires Survived(rs)
    ensures if Died(rs + [r]) then Survived((rs + [r])[..|rs|]) else Survived(rs + [r])
  {
    assert (rs + [r])[..|rs|] == rs;
  }

  /**
   * A run and its end. The exit cleanup leaves every descriptor, no shared memory id, and every entry but those of shared
   * memory; but a killed process does not clean up, and all its shared memory ids stay.
   */
  method Session(pages: PageSizes, ctx: Context, cmds: seq<Command>)
    returns (table: SegmentTable, rs: seq<Answer>, ghost trace: seq<Abstract>)
    requires UsablePages(pages) && forall c | c in cmds :: Acceptable(c)
    modifies ctx
    ensures |rs| <= |cmds| && (rs != [] ==> Survived(rs[..|rs| - 1])) && (|rs| < |cmds| ==> Died(rs))
    ensures Follows(cmds[..|rs|], rs, trace, pages) && |trace| == |rs| + 1 && trace[0] == NOTHING
    ensures var last := trace[|rs|];
      if Died(rs) then
        table.kernel.handles == last.handles && Dict(table.Slots()) == last.dict
      else
        && (forall h :: h in table.kernel.handles <==> h in last.handles && h.FileHandle?)
        && Dict(table.Slots()) == map n | n in last.dict && !last.dict[n].kind.Shm? :: last.dict[n]
  {
    hide Sound, MappingsConserved, PairwiseDisjoint, Dict, Acceptable, Follows, Highest, AlwaysApart, NamesAddress;
    table, rs, trace := Run(pages, ctx, cmds);
    if !Died(rs) {
      table.Cleanup();
    }
  }
}
