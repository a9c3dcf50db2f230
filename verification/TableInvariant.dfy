/** What holds of the table, the kernel's handles and its mappings between commands, and why each step keeps it. */
module TableInvariant {
  import opened Wrappers
  import opened Words
  import opened PageWindow
  import opened SlotTable
  import opened Kernel
  import opened Entries

  /** `peak` is the largest number of live segments so far. */
  ghost predicate Sound(t: Table, handles: set<Handle>, pages: PageSizes, peak: nat) {
    && UsablePages(pages)
    && WellFormed(t)
    && (forall i | 0 <= i < |t.slots| :: EntryOk(t.slots[i], pages))
    && HandlesConserved(t.slots, handles)
    && |Dict(t.slots)| <= peak
    && |t.slots| <= 1 + peak
  }

  lemma SoundParts(t: Table, handles: set<Handle>, pages: PageSizes, peak: nat)
    requires Sound(t, handles, pages, peak)
    ensures UsablePages(pages) && WellFormed(t) && HandlesConserved(t.slots, handles)
  {
  }

  lemma SoundEntry(t: Table, i: nat, handles: set<Handle>, pages: PageSizes, peak: nat)
    requires Sound(t, handles, pages, peak) && i < |t.slots|
    ensures EntryOk(t.slots[i], pages)
  {
  }

  function Max(a: nat, b: nat): nat {
    if a < b then b else a
  }

  lemma LookupKeepsSound(t: Table, name: string, handles: set<Handle>, pages: PageSizes, peak: nat)
    requires Sound(t, handles, pages, peak)
    ensures var (after, found) := Lookup(t, name);
      && Sound(after, handles, pages, peak)
      && Dict(after.slots) == Dict(t.slots)
      && (found.Some? <==> name in Dict(t.slots))
      && (found.Some? ==> found.value < |after.slots| && Named(after.slots[found.value], name)
                          && after.slots[found.value] == Dict(t.slots)[name])
    ensures forall mappings: map<nat, Region> | MappingsConserved(t.slots, mappings) ::
      MappingsConserved(Lookup(t, name).0.slots, mappings)
  {
    hide EntryOk, HandlesConserved, WellFormed, Dict, Find, Owned;
    ZeroedIsOk(pages);
    LookupRefinesMap(t, name);
    LookupSpaceBound(t, name, peak);
    KeepHandles(t.slots, Lookup(t, name).0.slots, handles);
  }

  /** Filling the slot that the allocator returned, with an entry that owns nothing or a handle just acquired. */
  lemma FillKeepsSound(t: Table, i: nat, v: Slot, handles: set<Handle>, after: set<Handle>, pages: PageSizes, peak: nat)
    requires Sound(t, handles, pages, peak) && t.avail == Some(i)
    requires !v.kind.Free? && v.name !in Dict(t.slots) && EntryOk(v, pages)
    requires match Owned(v)
      case None => after == handles
      case Some(h) =>
        && h !in handles && after == handles + {h}
        && (h.ShmHandle? ==> forall g | g in handles && g.ShmHandle? :: g.shmid != h.shmid)
    ensures Sound(Table(t.slots[i := v], None), after, pages, Max(peak, |Dict(t.slots)| + 1))
    ensures Dict(t.slots[i := v]) == Dict(t.slots)[v.name := v]
  {
    hide EntryOk, HandlesConserved, WellFormed, Dict, Find, Owned;
    FillSlot(t, i, v);
    ZeroedIsOk(pages);
    match Owned(v)
    case None => KeepHandles(t.slots, t.slots[i := v], handles);
    case Some(h) => AcquireHandle(t.slots, handles, i, v, h);
  }

  /** Changing a live slot in place, without its name or what it owns. */
  lemma ReplaceKeepsSound(t: Table, i: nat, v: Slot, handles: set<Handle>, pages: PageSizes, peak: nat)
    requires Sound(t, handles, pages, peak) && i < |t.slots|
    requires !t.slots[i].kind.Free? && !v.kind.Free? && v.name == t.slots[i].name && Owned(v) == Owned(t.slots[i]) && EntryOk(v, pages)
    ensures Sound(t.(slots := t.slots[i := v]), handles, pages, peak)
    ensures Dict(t.slots[i := v]) == Dict(t.slots)[v.name := v]
  {
    hide EntryOk, HandlesConserved, WellFormed, Dict, Find, Owned;
    ReplaceSlot(t, i, v);
    KeepHandles(t.slots, t.slots[i := v], handles);
  }

  lemma ReleaseKeepsSound(t: Table, i: nat, handles: set<Handle>, pages: PageSizes, peak: nat)
    requires Sound(t, handles, pages, peak) && i < |t.slots| && !t.slots[i].kind.Free?
    ensures Owned(t.slots[i]).Some? ==> Owned(t.slots[i]).value in handles
    ensures Sound(Release(t, i), handles - OwnedSet(t.slots[i]), pages, peak)
    ensures Dict(Release(t, i).slots) == Dict(t.slots) - {t.slots[i].name}
  {
    hide EntryOk, HandlesConserved, WellFormed, Dict, Find, Owned;
    ZeroedIsOk(pages);
    ReleaseSlot(t, i);
    DropHandle(t.slots, handles, i, ZEROED);
  }

  ghost predicate PairwiseDisjoint(mappings: map<nat, Region>) {
    forall i, j | i in mappings && j in mappings && i != j :: Disjoint(mappings[i], mappings[j])
  }

  lemma FewerStayDisjoint(mappings: map<nat, Region>, i: nat)
    ensures PairwiseDisjoint(mappings) ==> PairwiseDisjoint(mappings - {i})
  {
  }

  lemma OneMoreStaysDisjoint(mappings: map<nat, Region>, i: nat, r: Region)
    requires PairwiseDisjoint(mappings) && forall k | k in mappings :: Disjoint(mappings[k], r)
    ensures PairwiseDisjoint(mappings[i := r])
  {
  }

  lemma UnmappedIsOk(s: Slot, pages: PageSizes)
    requires EntryOk(s, pages) && !s.kind.Free?
    ensures var v := if Mapped(s) then Unmapped(s) else s;
      EntryOk(v, pages) && Owned(v) == Owned(s) && !Mapped(v) && v.name == s.name && !v.kind.Free?
  {
  }

  /** Unmapping the entry in slot `i`, if it is mapped. */
  lemma UnmapKeepsSound(t: Table, i: nat, handles: set<Handle>, mappings: map<nat, Region>, pages: PageSizes, peak: nat)
    requires Sound(t, handles, pages, peak) && MappingsConserved(t.slots, mappings) && i < |t.slots| && !t.slots[i].kind.Free?
    ensures var s := t.slots[i]; var v := if Mapped(s) then Unmapped(s) else s;
      && Sound(t.(slots := t.slots[i := v]), handles, pages, peak)
      && Dict(t.slots[i := v]) == Dict(t.slots)[s.name := v]
      && Owned(v) == Owned(s) && !Mapped(v) && !v.kind.Free? && v.name == s.name
  {
    var s := t.slots[i];
    UnmappedIsOk(s, pages);
    hide Sound, MappingsConserved, Dict, EntryOk, Mapped, Unmapped;
    ReplaceKeepsSound(t, i, if Mapped(s) then Unmapped(s) else s, handles, pages, peak);
  }

  /** Unmapping the entry in slot `i`, if it is mapped, and then releasing the slot. */
  lemma DiscardKeepsSound(t: Table, i: nat, handles: set<Handle>, mappings: map<nat, Region>, pages: PageSizes, peak: nat)
    requires Sound(t, handles, pages, peak) && MappingsConserved(t.slots, mappings) && i < |t.slots| && !t.slots[i].kind.Free?
    ensures var s := t.slots[i];
      var v := if Mapped(s) then Unmapped(s) else s;
      var u := t.(slots := t.slots[i := v]);
      var left := if Mapped(s) then mappings - {i} else mappings;
      && HandlesConserved(u.slots, handles)
      && Sound(Release(u, i), handles - OwnedSet(v), pages, peak)
      && OwnedSet(v) == OwnedSet(s)
      && MappingsConserved(Release(u, i).slots, left)
      && (PairwiseDisjoint(mappings) ==> PairwiseDisjoint(left))
      && Dict(Release(u, i).slots) == Dict(t.slots) - {s.name}
  {
    hide Sound, Dict, MappingsConserved, PairwiseDisjoint, Owned, Mapped, Unmapped, HandlesConserved;
    var s := t.slots[i];
    var v := if Mapped(s) then Unmapped(s) else s;
    var u := t.(slots := t.slots[i := v]);
    UnmapKeepsSound(t, i, handles, mappings, pages, peak);
    SoundParts(u, handles, pages, peak);
    ReleaseKeepsSound(u, i, handles, pages, peak);
    assert u.slots[i := ZEROED] == t.slots[i := ZEROED];
    SlotChangeKeepsMappings(t.slots, i, ZEROED, mappings);
    assert !Mapped(ZEROED) by { ZeroedIsOk(pages); }
    FewerStayDisjoint(mappings, i);
    assert Dict(t.slots)[s.name := v] - {s.name} == Dict(t.slots) - {s.name};
  }

  /** The entry that a mapping attempt leaves: prepared, and with an address if the kernel gave one. */
  function AfterAttempt(s: Slot, range: Option<Range>, flags: Flags, fileSize: Word, pagesize: Word, start: Option<nat>): Slot {
    Prepare(s, range, flags, fileSize, pagesize).0.(start := start)
  }

  lemma AttemptIsOk(s: Slot, range: Option<Range>, flags: Flags, fileSize: Word, pages: PageSizes, start: Option<nat>)
    requires UsablePages(pages) && EntryOk(s, pages) && !s.kind.Free? && s.start.None? && !flags.maps
    requires var (p, reached) := Prepare(s, range, flags, fileSize, pages.base);
      start.Some? ==> reached && 0 < p.length
    ensures var v := AfterAttempt(s, range, flags, fileSize, pages.base, start);
      EntryOk(v, pages) && Owned(v) == Owned(s) && v.name == s.name && !v.kind.Free? && (Mapped(v) <==> start.Some?) && !Mapped(s)
  {
    PreparedIsAligned(s, range, flags, fileSize, pages);
    hide Prepare, UsablePages, Multiple, PowerOfTwo;
  }

  /** What the system call needs to know about a prepared entry. */
  lemma PreparedForKernel(s: Slot, range: Option<Range>, flags: Flags, fileSize: Word, pages: PageSizes)
    requires UsablePages(pages) && EntryOk(s, pages) && !s.kind.Free? && s.start.None? && !flags.maps
    ensures var p := Prepare(s, range, flags, fileSize, pages.base).0;
      && p.kind == s.kind && p.name == s.name && p.start.None? && 0 < pages.base
      && (s.kind.Shm? ==> p == s && s.shmid.Some? && 0 < s.pagesize && Owned(s) == Some(ShmHandle(s.shmid.value, s.length)))
  {
  }

  lemma AttemptKeepsSound(t: Table, i: nat, range: Option<Range>, flags: Flags, fileSize: Word, pages: PageSizes,
                          start: Option<nat>, handles: set<Handle>, mappings: map<nat, Region>, peak: nat)
    requires Sound(t, handles, pages, peak) && MappingsConserved(t.slots, mappings)
    requires i < |t.slots| && !t.slots[i].kind.Free? && t.slots[i].start.None? && !flags.maps
    requires var (p, reached) := Prepare(t.slots[i], range, flags, fileSize, pages.base);
      start.Some? ==> reached && 0 < p.length
    ensures var v := AfterAttempt(t.slots[i], range, flags, fileSize, pages.base, start);
      && Sound(t.(slots := t.slots[i := v]), handles, pages, peak)
      && Dict(t.slots[i := v]) == Dict(t.slots)[t.slots[i].name := v]
      && MappingsConserved(t.slots[i := v], if start.Some? then mappings[i := Region(start.value, v.length)] else mappings)
      && i !in mappings
  {
    var s, v := t.slots[i], AfterAttempt(t.slots[i], range, flags, fileSize, pages.base, start);
    assert EntryOk(s, pages) && UsablePages(pages);
    hide Sound, Dict, EntryOk, Owned, UsablePages, Prepare;
    AttemptIsOk(s, range, flags, fileSize, pages, start);
    assert i !in mappings;
    hide MappingsConserved;
    ReplaceKeepsSound(t, i, v, handles, pages, peak);
    SlotChangeKeepsMappings(t.slots, i, v, mappings);
  }

  /** Entries that own shared memory have been released among the first `i` slots, and nothing else has changed. */
  ghost predicate CleanedUpTo(slots0: seq<Slot>, slots: seq<Slot>, i: nat) {
    && |slots| == |slots0| && i <= |slots|
    && (forall j | 0 <= j < |slots| :: slots[j] == if j < i && slots0[j].kind.Shm? then ZEROED else slots0[j])
  }

  ghost predicate SameFiles(handles0: set<Handle>, handles: set<Handle>) {
    && handles <= handles0
    && forall h | h in handles0 && h.FileHandle? :: h in handles
  }

  lemma CleanNothing(slots: seq<Slot>, handles: set<Handle>)
    ensures CleanedUpTo(slots, slots, 0) && SameFiles(handles, handles)
  {
  }

  lemma NoShmLeft(t0: Table, t: Table, handles: set<Handle>)
    requires HandlesConserved(t.slots, handles) && CleanedUpTo(t0.slots, t.slots, |t0.slots|)
    ensures forall h | h in handles :: h.FileHandle?
  {
  }

  /** When every shared memory entry has been released, the denoted map keeps every other entry as it was. */
  lemma CleanupKeepsTheRest(t0: Table, t: Table)
    requires WellFormed(t0) && WellFormed(t) && CleanedUpTo(t0.slots, t.slots, |t0.slots|)
    ensures Dict(t.slots) == map n | n in Dict(t0.slots) && !Dict(t0.slots)[n].kind.Shm? :: Dict(t0.slots)[n]
  {
    forall i | 0 <= i < |t0.slots| && !t0.slots[i].kind.Free?
      ensures t0.slots[i].name in Dict(t0.slots) && Dict(t0.slots)[t0.slots[i].name] == t0.slots[i]
    {
      DictAt(t0.slots, i);
    }
    var left := map n | n in Dict(t0.slots) && !Dict(t0.slots)[n].kind.Shm? :: Dict(t0.slots)[n];
    forall n | n in left
      ensures n in Names(t.slots)
    {
      assert t.slots[Find(t0.slots, n)].name in Names(t.slots);
    }
    DictIs(t.slots, left);
  }

  lemma CleanupIsComplete(t0: Table, t: Table, handles: set<Handle>, pages: PageSizes, peak: nat)
    requires WellFormed(t0) && Sound(t, handles, pages, peak) && CleanedUpTo(t0.slots, t.slots, |t0.slots|)
    ensures forall h | h in handles :: h.FileHandle?
    ensures Dict(t.slots) == map n | n in Dict(t0.slots) && !Dict(t0.slots)[n].kind.Shm? :: Dict(t0.slots)[n]
  {
    hide Sound, WellFormed, HandlesConserved, Dict, CleanedUpTo;
    SoundParts(t, handles, pages, peak);
    NoShmLeft(t0, t, handles);
    CleanupKeepsTheRest(t0, t);
  }

  lemma CleanStep(slots0: seq<Slot>, slots: seq<Slot>, i: nat)
    requires CleanedUpTo(slots0, slots, i) && i < |slots|
    ensures CleanedUpTo(slots0, if slots[i].kind.Shm? then slots[i := ZEROED] else slots, i + 1)
  {
  }

  lemma FilesStay(handles0: set<Handle>, handles: set<Handle>, s: Slot)
    requires SameFiles(handles0, handles) && s.kind.Shm?
    ensures SameFiles(handles0, handles - OwnedSet(s))
  {
  }

  lemma CleanOneSlot(t0: Table, t: Table, i: nat, handles0: set<Handle>, handles: set<Handle>, pages: PageSizes, peak: nat)
    requires Sound(t, handles, pages, peak) && CleanedUpTo(t0.slots, t.slots, i) && SameFiles(handles0, handles) && i < |t.slots|
    ensures if t.slots[i].kind.Shm? then
              && HandlesConserved(t.slots, handles)
              && Sound(Release(t, i), handles - OwnedSet(t.slots[i]), pages, peak)
              && CleanedUpTo(t0.slots, Release(t, i).slots, i + 1)
              && SameFiles(handles0, handles - OwnedSet(t.slots[i]))
            else CleanedUpTo(t0.slots, t.slots, i + 1)
  {
    hide Sound, WellFormed, HandlesConserved, Dict, CleanedUpTo, SameFiles, OwnedSet;
    SoundParts(t, handles, pages, peak);
    CleanStep(t0.slots, t.slots, i);
    if t.slots[i].kind.Shm? {
      ReleaseKeepsSound(t, i, handles, pages, peak);
      FilesStay(handles0, handles, t.slots[i]);
    }
  }
}
