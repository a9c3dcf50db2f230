/** The segment table as a value: slots, the one-entry cache of a free slot, and the map from names it denotes. */
module SlotTable {
  import opened Wrappers
  import opened Words

  const MAX_SEGMENTS: nat := 63

  datatype Kind = Free | Anon | File | Shm

  /** The bits of `seg_flags`; `maps` marks an entry read from the process's own memory map. */
  datatype Flags = Flags(shared: bool, priv: bool, huge: bool, maps: bool)

  const NO_FLAGS := Flags(false, false, false, false)

  datatype Prot = Prot(read: bool, write: bool, exec: bool)

  /** One table entry. `start.None?` is MAP_FAILED; `fd.None?` and `shmid.None?` are -1. */
  datatype Slot = Slot(kind: Kind, name: string, start: Option<nat>, length: Word, offset: Word, path: Option<string>,
                       pagesize: Word, flags: Flags, prot: Prot, fd: Option<nat>, shmid: Option<nat>)

  const ZEROED := Slot(Free, "", Some(0), 0, 0, None, 0, NO_FLAGS, Prot(false, false, false), Some(0), Some(0))

  datatype Table = Table(slots: seq<Slot>, avail: Option<nat>)

  predicate Named(s: Slot, name: string) {
    !s.kind.Free? && s.name == name
  }

  ghost predicate Distinct(slots: seq<Slot>) {
    forall i, j | 0 <= i < j < |slots| && !slots[i].kind.Free? :: !Named(slots[j], slots[i].name)
  }

  ghost predicate WellFormed(t: Table) {
    && |t.slots| <= MAX_SEGMENTS
    && (t.avail.Some? ==> t.avail.value < |t.slots| && t.slots[t.avail.value].kind.Free?)
    && (forall i | 0 <= i < |t.slots| && t.slots[i].kind.Free? :: t.slots[i] == ZEROED)
    && Distinct(t.slots)
  }

  /** Index of the first live slot with this name at or after `i`, or the table's length. */
  function FindFrom(slots: seq<Slot>, name: string, i: nat): (r: nat)
    requires i <= |slots|
    ensures i <= r <= |slots| && (r < |slots| ==> Named(slots[r], name))
    ensures forall j | i <= j < r :: !Named(slots[j], name)
    decreases |slots| - i
  {
    if i == |slots| || Named(slots[i], name) then i else FindFrom(slots, name, i + 1)
  }

  function Find(slots: seq<Slot>, name: string): (r: nat)
    ensures r <= |slots| && (r < |slots| ==> Named(slots[r], name))
    ensures forall j | 0 <= j < r :: !Named(slots[j], name)
  {
    FindFrom(slots, name, 0)
  }

  /** Index of the first free slot in `[i, end)`, or `end`. */
  function FreeFrom(slots: seq<Slot>, i: nat, end: nat): (r: nat)
    requires i <= end <= |slots|
    ensures i <= r <= end && (r < end ==> slots[r].kind.Free?)
    ensures forall j | i <= j < r :: !slots[j].kind.Free?
    decreases end - i
  {
    if i == end || slots[i].kind.Free? then i else FreeFrom(slots, i + 1, end)
  }

  /** The cache after a scan of the first `end` slots. */
  function Remember(t: Table, end: nat): Option<nat>
    requires end <= |t.slots|
  {
    var free := FreeFrom(t.slots, 0, end);
    if t.avail.None? && free < end then Some(free) else t.avail
  }

  lemma FirstFree(slots: seq<Slot>, r: nat, end: nat)
    requires r <= end <= |slots| && (r < end ==> slots[r].kind.Free?)
    requires forall j | 0 <= j < r :: !slots[j].kind.Free?
    ensures FreeFrom(slots, 0, end) == r
  {
  }

  lemma RememberStep(t: Table, i: nat)
    requires i < |t.slots|
    ensures Remember(t, i + 1) == if Remember(t, i).None? && t.slots[i].kind.Free? then Some(i) else Remember(t, i)
  {
  }

  /** Lookup by name: may fill the cache, and preallocates a slot when it fails without having seen a free one. */
  function Lookup(t: Table, name: string): (r: (Table, Option<nat>)) {
    var found := Find(t.slots, name);
    var avail := Remember(t, found);
    if found < |t.slots| then (t.(avail := avail), Some(found))
    else if avail.None? && |t.slots| < MAX_SEGMENTS then (Table(t.slots + [ZEROED], Some(|t.slots|)), None)
    else (t.(avail := avail), None)
  }

  /** Slot allocation: the cache, else a linear scan, else a never-used slot. */
  function Allocate(t: Table): (r: (Table, Option<nat>)) {
    if t.avail.Some? then (t.(avail := None), t.avail)
    else
      var free := FreeFrom(t.slots, 0, |t.slots|);
      if free < |t.slots| then (t, Some(free))
      else if |t.slots| < MAX_SEGMENTS then (t.(slots := t.slots + [ZEROED]), Some(|t.slots|))
      else (t, None)
  }

  function Release(t: Table, i: nat): Table
    requires i < |t.slots|
  {
    Table(t.slots[i := ZEROED], if t.avail.None? then Some(i) else t.avail)
  }

  lemma ReleaseOverwrites(t: Table, i: nat, v: Slot)
    requires i < |t.slots|
    ensures Release(t.(slots := t.slots[i := v]), i) == Release(t, i)
  {
  }

  /** Taking the cached slot, writing to it and releasing it gives back the table. */
  lemma ReleaseUndoesAllocate(t: Table)
    requires WellFormed(t) && t.avail.Some?
    ensures Allocate(t) == (t.(avail := None), t.avail)
    ensures Release(Allocate(t).0, t.avail.value) == t
    ensures t.slots[t.avail.value] == ZEROED
  {
  }

  // ---- The map that a table denotes ----

  function Names(slots: seq<Slot>): set<string> {
    set i | 0 <= i < |slots| && !slots[i].kind.Free? :: slots[i].name
  }

  lemma FindNamed(slots: seq<Slot>, name: string)
    ensures name in Names(slots) <==> Find(slots, name) < |slots|
  {
  }

  function Dict(slots: seq<Slot>): map<string, Slot> {
    map n | n in Names(slots) && Find(slots, n) < |slots| :: slots[Find(slots, n)]
  }

  lemma DictAt(slots: seq<Slot>, i: nat)
    requires Distinct(slots) && i < |slots| && !slots[i].kind.Free?
    ensures slots[i].name in Dict(slots) && Dict(slots)[slots[i].name] == slots[i]
  {
  }

  /** `m` is the denoted map as soon as it has every live slot and nothing else. */
  lemma DictIs(slots: seq<Slot>, m: map<string, Slot>)
    requires Distinct(slots)
    requires forall i | 0 <= i < |slots| && !slots[i].kind.Free? :: slots[i].name in m && m[slots[i].name] == slots[i]
    requires forall n | n in m :: n in Names(slots)
    ensures Dict(slots) == m
  {
  }

  lemma StoreSlot(slots: seq<Slot>, i: nat, v: Slot)
    requires Distinct(slots) && i < |slots| && !v.kind.Free?
    requires if slots[i].kind.Free? then v.name !in Dict(slots) else slots[i].name == v.name
    ensures Distinct(slots[i := v]) && Dict(slots[i := v]) == Dict(slots)[v.name := v]
  {
    var after := slots[i := v];
    forall j | 0 <= j < |slots| && j != i && !slots[j].kind.Free?
      ensures slots[j].name != v.name && slots[j].name in Dict(slots) && Dict(slots)[slots[j].name] == slots[j]
    {
      DictAt(slots, j);
    }
    forall n | n in Dict(slots)[v.name := v]
      ensures n in Names(after)
    {
      assert after[i].name in Names(after);
      if n != v.name {
        var r := Find(slots, n);
        assert after[r].name in Names(after);
      }
    }
    DictIs(after, Dict(slots)[v.name := v]);
  }

  lemma ClearSlot(slots: seq<Slot>, i: nat)
    requires Distinct(slots) && i < |slots| && !slots[i].kind.Free?
    ensures Distinct(slots[i := ZEROED]) && Dict(slots[i := ZEROED]) == Dict(slots) - {slots[i].name}
  {
    var after := slots[i := ZEROED];
    forall j | 0 <= j < |slots| && !slots[j].kind.Free?
      ensures slots[j].name in Dict(slots) && Dict(slots)[slots[j].name] == slots[j]
    {
      DictAt(slots, j);
    }
    forall n | n in Dict(slots) - {slots[i].name}
      ensures n in Names(after)
    {
      assert after[Find(slots, n)].name in Names(after);
    }
    DictIs(after, Dict(slots) - {slots[i].name});
  }

  lemma AppendFree(slots: seq<Slot>, free: Slot)
    requires Distinct(slots) && free.kind.Free?
    ensures Distinct(slots + [free]) && Dict(slots + [free]) == Dict(slots)
  {
    var after := slots + [free];
    forall j | 0 <= j < |slots| && !slots[j].kind.Free?
      ensures slots[j].name in Dict(slots) && Dict(slots)[slots[j].name] == slots[j]
    {
      DictAt(slots, j);
    }
    forall n | n in Dict(slots)
      ensures n in Names(after)
    {
      assert after[Find(slots, n)].name in Names(after);
    }
    DictIs(after, Dict(slots));
  }

  function Live(slots: seq<Slot>): (n: nat)
    ensures n <= |slots|
  {
    if slots == [] then 0
    else Live(slots[..|slots| - 1]) + if slots[|slots| - 1].kind.Free? then 0 else 1
  }

  lemma AppendLive(slots: seq<Slot>, last: Slot)
    requires Distinct(slots) && Distinct(slots + [last]) && !last.kind.Free?
    ensures last.name !in Dict(slots) && Dict(slots + [last]) == Dict(slots)[last.name := last]
  {
    var after := slots + [last];
    var r := Find(slots, last.name);
    assert r < |slots| ==> !Named(after[|slots|], after[r].name);
    AppendFree(slots, ZEROED);
    hide Dict, Find;
    StoreSlot(slots + [ZEROED], |slots|, last);
    assert (slots + [ZEROED])[|slots| := last] == after;
  }

  lemma {:induction false} LiveIsDictSize(slots: seq<Slot>)
    requires Distinct(slots)
    ensures Live(slots) == |Dict(slots)|
  {
    if slots == [] {
    } else {
      var init, last := slots[..|slots| - 1], slots[|slots| - 1];
      assert slots == init + [last];
      forall i, j | 0 <= i < j < |init| && !init[i].kind.Free?
        ensures !Named(init[j], init[i].name)
      {
        assert !Named(slots[j], slots[i].name);
      }
      hide Dict;
      LiveIsDictSize(init);
      if last.kind.Free? {
        AppendFree(init, last);
      } else {
        AppendLive(init, last);
      }
    }
  }

  lemma {:induction false} AllLive(slots: seq<Slot>)
    ensures Live(slots) == |slots| <==> forall i | 0 <= i < |slots| :: !slots[i].kind.Free?
  {
    if slots != [] {
      AllLive(slots[..|slots| - 1]);
      assert forall i | 0 <= i < |slots| - 1 :: slots[..|slots| - 1][i] == slots[i];
    }
  }

  // ---- The three ways a slot changes ----

  lemma FillSlot(t: Table, i: nat, v: Slot)
    requires WellFormed(t) && t.avail == Some(i) && !v.kind.Free? && v.name !in Dict(t.slots)
    ensures i < |t.slots| && t.slots[i] == ZEROED
    ensures WellFormed(Table(t.slots[i := v], None))
    ensures Dict(t.slots[i := v]) == Dict(t.slots)[v.name := v] && |Dict(t.slots[i := v])| == |Dict(t.slots)| + 1
  {
    hide Dict;
    StoreSlot(t.slots, i, v);
  }

  lemma ReplaceSlot(t: Table, i: nat, v: Slot)
    requires WellFormed(t) && i < |t.slots| && !t.slots[i].kind.Free? && !v.kind.Free? && v.name == t.slots[i].name
    ensures WellFormed(t.(slots := t.slots[i := v]))
    ensures v.name in Dict(t.slots) && Dict(t.slots)[v.name] == t.slots[i]
    ensures Dict(t.slots[i := v]) == Dict(t.slots)[v.name := v] && |Dict(t.slots[i := v])| == |Dict(t.slots)|
  {
    hide Dict;
    DictAt(t.slots, i);
    StoreSlot(t.slots, i, v);
    assert Dict(t.slots)[v.name := v].Keys == Dict(t.slots).Keys;
  }

  lemma ReleaseSlot(t: Table, i: nat)
    requires WellFormed(t) && i < |t.slots| && !t.slots[i].kind.Free?
    ensures WellFormed(Release(t, i))
    ensures t.slots[i].name in Dict(t.slots) && Dict(t.slots)[t.slots[i].name] == t.slots[i]
    ensures Dict(Release(t, i).slots) == Dict(t.slots) - {t.slots[i].name}
    ensures |Dict(Release(t, i).slots)| == |Dict(t.slots)| - 1
  {
    hide Dict;
    DictAt(t.slots, i);
    ClearSlot(t.slots, i);
    var d, d' := Dict(t.slots), Dict(t.slots) - {t.slots[i].name};
    assert d == d'[t.slots[i].name := d[t.slots[i].name]];
  }

  // ---- Main results about lookup and allocation ----

  /** A lookup answers from the denoted map and leaves that map alone, whatever it does to the table. */
  lemma LookupRefinesMap(t: Table, name: string)
    requires WellFormed(t)
    ensures var (after, found) := Lookup(t, name);
      && WellFormed(after) && Dict(after.slots) == Dict(t.slots)
      && (found.Some? <==> name in Dict(t.slots))
      && (found.Some? ==> found.value < |after.slots| && Named(after.slots[found.value], name)
                          && after.slots[found.value] == Dict(t.slots)[name])
  {
    FindNamed(t.slots, name);
    AppendFree(t.slots, ZEROED);
  }

  /** After a failed lookup the allocator never scans: it takes the cached slot, or all 63 are live. */
  lemma AllocateAfterMiss(t: Table, name: string)
    requires WellFormed(t) && Lookup(t, name).1.None?
    ensures var missed := Lookup(t, name).0;
      && (missed.avail.None? <==> |Dict(t.slots)| == MAX_SEGMENTS)
      && (missed.avail.None? ==> Allocate(missed) == (missed, None))
      && (missed.avail.Some? ==> Allocate(missed) == (missed.(avail := None), missed.avail))
  {
    hide Dict, Find, FindFrom;
    var missed := Lookup(t, name).0;
    LookupRefinesMap(t, name);
    LiveIsDictSize(t.slots);
    LiveIsDictSize(missed.slots);
    AllLive(missed.slots);
  }

  /** A lookup grows the table only when every slot is live, so it stays within one slot of the live count's peak. */
  lemma LookupSpaceBound(t: Table, name: string, peak: nat)
    requires WellFormed(t) && |Dict(t.slots)| <= peak && |t.slots| <= 1 + peak
    ensures |Lookup(t, name).0.slots| <= 1 + peak
  {
    var missed := Lookup(t, name).0;
    if |missed.slots| > |t.slots| {
      LiveIsDictSize(t.slots);
      AllLive(t.slots);
    }
  }

  /** `i` is the lowest free slot among the first `end`. */
  predicate LowestFree(slots: seq<Slot>, i: nat, end: nat) {
    i < end <= |slots| && slots[i].kind.Free? && forall j | 0 <= j < i :: !slots[j].kind.Free?
  }

  /** Allocation takes the cached slot, else the lowest free one, else a never-used one; none is left when all 63 are live. */
  lemma AllocatedSlotIs(t: Table)
    requires WellFormed(t)
    ensures var (after, got) := Allocate(t);
      if t.avail.Some? then got == t.avail && after.avail.None? && after.slots == t.slots
      else if exists i :: LowestFree(t.slots, i, |t.slots|) then got.Some? && LowestFree(t.slots, got.value, |t.slots|) && after == t
      else if |t.slots| < 63 then got == Some(|t.slots|) && after.avail.None? && after.slots == t.slots + [ZEROED]
      else got.None? && after == t && |Dict(t.slots)| == 63
  {
    hide Dict, Distinct;
    var i := FreeFrom(t.slots, 0, |t.slots|);
    if i < |t.slots| {
      assert LowestFree(t.slots, i, |t.slots|);
    }
    LiveIsDictSize(t.slots);
    AllLive(t.slots);
  }

  /** Releasing zeroes the slot and caches it only if nothing is cached. */
  lemma ReleasedSlotIs(t: Table, i: nat)
    requires i < |t.slots|
    ensures var after := Release(t, i);
      && |after.slots| == |t.slots| && after.slots[i].kind.Free? && after.slots[i] == ZEROED
      && (forall j | 0 <= j < |t.slots| && j != i :: after.slots[j] == t.slots[j])
      && (t.avail.Some? ==> after.avail == t.avail) && (t.avail.None? ==> after.avail == Some(i))
  {
  }

  /**
   * A lookup never drops the cached slot. Without one it caches the lowest free slot that the scan passed before it ended; if
   * there is none, a lookup that fails adds a slot while there are fewer than 63.
   */
  lemma LookupCaches(t: Table, name: string)
    requires WellFormed(t)
    ensures var ((after, found), end) := (Lookup(t, name), Find(t.slots, name));
      if t.avail.Some? then after == t
      else if exists i :: LowestFree(t.slots, i, end) then
        after.slots == t.slots && after.avail.Some? && LowestFree(t.slots, after.avail.value, end)
      else if found.Some? || |t.slots| == 63 then after == t
      else after.slots == t.slots + [ZEROED] && after.avail == Some(|t.slots|)
  {
    hide Dict, Distinct;
    var end := Find(t.slots, name);
    var i := FreeFrom(t.slots, 0, end);
    if i < end {
      assert LowestFree(t.slots, i, end);
    }
  }
}
