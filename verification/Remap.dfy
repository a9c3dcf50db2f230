/** Mapping, unmapping and mapping again, within any run of commands. */
module Remap {
  import opened Wrappers
  import opened Words
  import opened PageWindow
  import opened SlotTable
  import opened Entries
  import opened SegmentTable
  import opened Session
  import AnonChain

  /** remove, map and unmap are the commands that change the entry of the segment they name. */
  predicate Changes(cmd: Command, name: string) {
    (cmd.RemoveSegment? || cmd.MapSegment? || cmd.UnmapSegment?) && cmd.name == name
  }

  /** The other commands leave an entry as it is, those on other segments among them. */
  lemma OthersKeep(cmd: Command, name: string, r: Answer, a: Abstract, b: Abstract, pages: PageSizes)
    requires Effect(cmd, r, a, b, pages) && !Changes(cmd, name) && name in a.dict
    ensures name in b.dict && b.dict[name] == a.dict[name]
  {
    hide NewEntry, MapResult, RangeAnswer, LocationRange, AnonChain.NextOffset, Unmapped, Mapped;
  }

  predicate UntouchedBetween(cmds: seq<Command>, name: string, i: nat, j: nat) {
    i <= j <= |cmds| && forall k | i <= k < j :: !Changes(cmds[k], name)
  }

  lemma {:induction false} KeptBetween(cmds: seq<Command>, rs: seq<Answer>, trace: seq<Abstract>, pages: PageSizes,
                                       name: string, i: nat, j: nat)
    requires Follows(cmds, rs, trace, pages) && UntouchedBetween(cmds, name, i, j)
    requires i < |trace| && name in trace[i].dict
    ensures j < |trace| && name in trace[j].dict && trace[j].dict[name] == trace[i].dict[name]
    decreases j
  {
    hide Effect, Conserved, Changes;
    if i < j {
      KeptBetween(cmds, rs, trace, pages, name, i, j - 1);
      OthersKeep(cmds[j - 1], name, rs[j - 1], trace[j - 1], trace[j], pages);
    }
  }

  /** Both mappings cover the same extent of the object, at the same address if the segment asks for one. */
  predicate SameExtent(v: Slot, w: Slot) {
    && v.start.Some? && w.start.Some? && w.kind == v.kind
    && w.length == v.length && w.offset == v.offset && w.fd == v.fd && w.shmid == v.shmid
    && (v.kind.Anon? && v.offset != 0 ==> w.start == v.start && v.start.value == v.offset)
  }

  /** A mapped entry as `map` leaves it: at whole pages, unless it is shared memory, and at its address if it has one. */
  predicate InForce(v: Slot, p: Word) {
    && !v.kind.Free? && v.start.Some? && (v.kind.Anon? && v.offset != 0 ==> v.start.value == v.offset)
    && (!v.kind.Shm? ==> p > 0 && v.pagesize == p && v.length > 0 && RoundUp(v.length, p) == v.length && RoundDown(v.offset, p) == v.offset)
  }

  lemma GrantedIsInForce(s: Slot, v: Slot, range: Option<Range>, flags: Flags, fileSize: Word, pages: PageSizes,
                         slot: nat, before: map<nat, Region>, after: map<nat, Region>)
    requires UsablePages(pages) && MapResult(Done, s, v, range, flags, fileSize, pages, slot, before, after)
    ensures InForce(v, pages.base)
  {
    hide RoundUp, RoundDown, PowerOfTwo, Multiple;
    if s.kind.Anon? || s.kind.File? {
      PreparedExtent(s, range, flags, fileSize, pages.base);
      if v.length > 0 && v.pagesize > 0 {
        MultipleIsFixed(v.length, v.pagesize);
        MultipleIsFixed(v.offset, v.pagesize);
      }
    }
  }

  lemma GrantedAgain(v: Slot, w: Slot, flags: Flags, fileSize: Word, pages: PageSizes,
                     slot: nat, before: map<nat, Region>, after: map<nat, Region>)
    requires InForce(v, pages.base)
    requires MapResult(Done, Unmapped(v), w, None, flags, fileSize, pages, slot, before, after)
    ensures SameExtent(v, w)
  {
    hide RoundUp, RoundDown;
  }

  /** `map` was granted for segment `name` at command `i`, which was not mapped then. */
  predicate GrantedAt(cmds: seq<Command>, rs: seq<Answer>, trace: seq<Abstract>, name: string, i: nat) {
    && i < |cmds| == |rs| < |trace|
    && cmds[i].MapSegment? && cmds[i].name == name && rs[i].outcome == Done
    && name in trace[i].dict && trace[i].dict[name].start.None?
  }

  lemma GrantedStep(cmds: seq<Command>, rs: seq<Answer>, trace: seq<Abstract>, pages: PageSizes, name: string, i: nat)
    returns (slot: nat)
    requires Follows(cmds, rs, trace, pages) && GrantedAt(cmds, rs, trace, name, i)
    ensures |cmds| < |trace| && name in trace[i + 1].dict
    ensures var cmd := cmds[i];
      MapResult(Done, trace[i].dict[name], trace[i + 1].dict[name], cmd.whole, cmd.flags, cmd.fileSize, pages, slot,
                trace[i].mappings, trace[i + 1].mappings)
  {
    hide MapResult, Conserved;
    var a, b, cmd := trace[i], trace[i + 1], cmds[i];
    assert Effect(cmd, rs[i], a, b, pages);
    slot :| MapResult(Done, a.dict[name], b.dict[name], cmd.whole, cmd.flags, cmd.fileSize, pages, slot, a.mappings, b.mappings);
  }

  lemma UnmappedStep(cmds: seq<Command>, rs: seq<Answer>, trace: seq<Abstract>, pages: PageSizes, name: string, j: nat)
    requires Follows(cmds, rs, trace, pages) && j < |cmds| && cmds[j] == UnmapSegment(name) && rs[j].outcome == Done
    requires j < |trace| && name in trace[j].dict && InForce(trace[j].dict[name], pages.base)
    ensures j + 1 < |trace| && name in trace[j + 1].dict && trace[j + 1].dict[name] == Unmapped(trace[j].dict[name])
  {
    hide Unmapped, Conserved, RoundUp, RoundDown;
    assert Effect(cmds[j], rs[j], trace[j], trace[j + 1], pages);
  }

  /**
   * In every run, a segment that is mapped at command `i`, unmapped at `j` and mapped without a range at `k` is mapped with the
   * same extent again, whatever range and flags the first `map` had, whatever flags the second has, and whatever the file's
   * size is by then. Other commands may come between, on this segment too as long as they do not map, unmap or remove it.
   */
  lemma RemappedInARun(cmds: seq<Command>, rs: seq<Answer>, trace: seq<Abstract>, pages: PageSizes,
                       name: string, i: nat, j: nat, k: nat)
    requires UsablePages(pages) && Follows(cmds, rs, trace, pages) && i < j < k
    requires GrantedAt(cmds, rs, trace, name, i) && GrantedAt(cmds, rs, trace, name, k) && cmds[k].whole.None?
    requires cmds[j] == UnmapSegment(name) && rs[j].outcome == Done
    requires UntouchedBetween(cmds, name, i + 1, j) && UntouchedBetween(cmds, name, j + 1, k)
    ensures k + 1 < |trace| && name in trace[i + 1].dict && name in trace[k + 1].dict
    ensures SameExtent(trace[i + 1].dict[name], trace[k + 1].dict[name])
  {
    hide Effect, Conserved, Follows, UntouchedBetween, MapResult, SameExtent, Unmapped, InForce, UsablePages;
    var slot := GrantedStep(cmds, rs, trace, pages, name, i);
    var v := trace[i + 1].dict[name];
    GrantedIsInForce(trace[i].dict[name], v, cmds[i].whole, cmds[i].flags, cmds[i].fileSize, pages, slot,
                     trace[i].mappings, trace[i + 1].mappings);
    KeptBetween(cmds, rs, trace, pages, name, i + 1, j);
    UnmappedStep(cmds, rs, trace, pages, name, j);
    KeptBetween(cmds, rs, trace, pages, name, j + 1, k);
    var slot2 := GrantedStep(cmds, rs, trace, pages, name, k);
    GrantedAgain(v, trace[k + 1].dict[name], cmds[k].flags, cmds[k].fileSize, pages, slot2,
                 trace[k].mappings, trace[k + 1].mappings);
  }
}
