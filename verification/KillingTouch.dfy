/** Touching a segment that was never mapped kills the process: exactly when, over every run of commands. */
module KillingTouch {
  import opened Wrappers
  import opened Words
  import opened PageWindow
  import opened SlotTable
  import opened Kernel
  import opened Entries
  import opened SegmentTable
  import TouchMemory
  import opened AnonChain
  import opened Session

  /** The command is a registration of this name. */
  predicate Adds(cmd: Command, name: string) {
    match cmd
    case AddAnon(n, _, _) => n == name
    case AddAnonAfter(n, _, _, _) => n == name
    case AddFile(n, _, _, _, _) => n == name
    case AddShm(n, _, _) => n == name
    case _ => false
  }

  /** Whether a `map` command named the segment since it was last registered, successful or not. */
  function Attempted(cmds: seq<Command>, rs: seq<Answer>, name: string): bool
    requires |cmds| == |rs|
  {
    if cmds == [] then false
    else
      var k := |cmds| - 1;
      if Adds(cmds[k], name) && rs[k].outcome == Done then false
      else (cmds[k].MapSegment? && cmds[k].name == name) || Attempted(cmds[..k], rs[..k], name)
  }

  lemma AttemptedStep(cmds: seq<Command>, rs: seq<Answer>, cmd: Command, r: Answer, name: string)
    requires |cmds| == |rs|
    ensures Attempted(cmds + [cmd], rs + [r], name) ==
      (!(Adds(cmd, name) && r.outcome == Done) && ((cmd.MapSegment? && cmd.name == name) || Attempted(cmds, rs, name)))
  {
    assert (cmds + [cmd])[..|cmds|] == cmds && (rs + [r])[..|rs|] == rs;
  }

  /** An entry without a page size: it was registered, but no attempt was made to map it. */
  predicate Sized(s: Slot, attempted: bool) {
    && !s.flags.maps && !s.kind.Free?
    && (s.pagesize == 0 <==> !s.kind.Shm? && !attempted)
    && (s.start.Some? ==> s.pagesize != 0)
  }

  predicate AllSized(cmds: seq<Command>, rs: seq<Answer>, a: Abstract)
    requires |cmds| == |rs|
  {
    forall n | n in a.dict :: Sized(a.dict[n], Attempted(cmds, rs, n))
  }

  lemma NewIsSized(kind: Kind, name: string, path: string, range: Range, flags: Flags, status: FileStatus,
                   a: Abstract, b: Abstract, pages: PageSizes)
    requires UsablePages(pages) && !flags.maps && !kind.Free?
    requires Registered(Done, kind, name, path, range, flags, status, a, b, pages)
    ensures name !in a.dict && name in b.dict && b.dict == a.dict[name := b.dict[name]] && Sized(b.dict[name], false)
  {
    RoundUpToNothing(range.length);
    hide RoundUp, RoundDown;
  }

  lemma RefusedAddsNothing(r: Outcome, kind: Kind, name: string, path: string, range: Range, flags: Flags, status: FileStatus,
                           a: Abstract, b: Abstract, pages: PageSizes)
    requires Registered(r, kind, name, path, range, flags, status, a, b, pages) && !flags.maps
    ensures r != Killed && (r != Done ==> b.dict == a.dict)
  {
    hide NewEntry;
  }

  lemma MappingSizes(r: Outcome, name: string, range: Option<Range>, flags: Flags, fileSize: Word,
                     a: Abstract, b: Abstract, pages: PageSizes, attempted: bool)
    requires UsablePages(pages) && !flags.maps && Mapping(r, name, range, flags, fileSize, a, b, pages)
    requires name in a.dict && Sized(a.dict[name], attempted)
    ensures name in b.dict && b.dict == a.dict[name := b.dict[name]] && Sized(b.dict[name], true)
  {
    hide RoundUp, RoundDown;
  }

  lemma RegistrationKeepsSizes(cmds: seq<Command>, rs: seq<Answer>, cmd: Command, r: Answer, kind: Kind, name: string, path: string,
                               range: Range, flags: Flags, status: FileStatus, a: Abstract, b: Abstract, pages: PageSizes)
    requires UsablePages(pages) && |cmds| == |rs| && AllSized(cmds, rs, a)
    requires !flags.maps && !kind.Free? && !cmd.MapSegment? && forall n :: Adds(cmd, n) <==> n == name
    requires Registered(r.outcome, kind, name, path, range, flags, status, a, b, pages)
    ensures AllSized(cmds + [cmd], rs + [r], b) && r.outcome != Killed
  {
    hide Registered, Sized;
    RefusedAddsNothing(r.outcome, kind, name, path, range, flags, status, a, b, pages);
    if r.outcome == Done {
      NewIsSized(kind, name, path, range, flags, status, a, b, pages);
    }
    forall n | n in b.dict
      ensures Sized(b.dict[n], Attempted(cmds + [cmd], rs + [r], n))
    {
      AttemptedStep(cmds, rs, cmd, r, n);
    }
  }

  /** Commands that add nothing and map nothing leave the page sizes. */
  lemma OthersKeepSizes(cmds: seq<Command>, rs: seq<Answer>, cmd: Command, r: Answer, a: Abstract, b: Abstract)
    requires |cmds| == |rs| && AllSized(cmds, rs, a) && !cmd.MapSegment? && forall n :: !Adds(cmd, n) || r.outcome != Done
    requires forall n | n in b.dict :: n in a.dict && (b.dict[n] == a.dict[n] || b.dict[n] == Unmapped(a.dict[n]))
    ensures AllSized(cmds + [cmd], rs + [r], b)
  {
    forall n | n in b.dict
      ensures Sized(b.dict[n], Attempted(cmds + [cmd], rs + [r], n))
    {
      AttemptedStep(cmds, rs, cmd, r, n);
    }
  }

  lemma MapKeepsSizes(cmds: seq<Command>, rs: seq<Answer>, cmd: Command, r: Answer, a: Abstract, b: Abstract, pages: PageSizes)
    requires UsablePages(pages) && |cmds| == |rs| && AllSized(cmds, rs, a) && cmd.MapSegment? && Acceptable(cmd)
    requires Mapping(r.outcome, cmd.name, cmd.whole, cmd.flags, cmd.fileSize, a, b, pages)
    ensures AllSized(cmds + [cmd], rs + [r], b)
  {
    hide Mapping, Sized;
    if cmd.name in a.dict {
      MappingSizes(r.outcome, cmd.name, cmd.whole, cmd.flags, cmd.fileSize, a, b, pages, Attempted(cmds, rs, cmd.name));
    } else {
      MissedMapping(r.outcome, cmd.name, cmd.whole, cmd.flags, cmd.fileSize, a, b, pages);
    }
    forall n | n in b.dict
      ensures Sized(b.dict[n], Attempted(cmds + [cmd], rs + [r], n))
    {
      AttemptedStep(cmds, rs, cmd, r, n);
    }
  }

  lemma MissedMapping(r: Outcome, name: string, range: Option<Range>, flags: Flags, fileSize: Word,
                      a: Abstract, b: Abstract, pages: PageSizes)
    requires Mapping(r, name, range, flags, fileSize, a, b, pages) && name !in a.dict
    ensures b == a
  {
    hide MapResult;
  }

  lemma EffectKeepsSizes(cmds: seq<Command>, rs: seq<Answer>, cmd: Command, r: Answer, a: Abstract, b: Abstract, pages: PageSizes)
    requires UsablePages(pages) && |cmds| == |rs| && AllSized(cmds, rs, a) && Acceptable(cmd) && Effect(cmd, r, a, b, pages)
    ensures AllSized(cmds + [cmd], rs + [r], b)
  {
    hide AllSized, Registered, Mapping, RangeAnswer, LocationRange, UsablePages, NextOffset, TouchMemory.NonFatal;
    match cmd
    case AddAnon(name, range, flags) =>
      RegistrationKeepsSizes(cmds, rs, cmd, r, Anon, name, "", range, flags, NO_FILE, a, b, pages);
    case AddAnonAfter(name, length, flags, prev) =>
      if prev in a.dict {
        RegistrationKeepsSizes(cmds, rs, cmd, r, Anon, name, "", Range(NextOffset(a.dict[prev]), length), flags, NO_FILE, a, b, pages);
      } else {
        OthersKeepSizes(cmds, rs, cmd, r, a, b);
      }
    case AddFile(name, path, range, flags, status) =>
      RegistrationKeepsSizes(cmds, rs, cmd, r, File, name, path, range, flags, status, a, b, pages);
    case AddShm(name, range, flags) =>
      RegistrationKeepsSizes(cmds, rs, cmd, r, Shm, name, "", range, flags, NO_FILE, a, b, pages);
    case MapSegment(_, _, _, _) =>
      MapKeepsSizes(cmds, rs, cmd, r, a, b, pages);
    case _ =>
      OthersKeepSizes(cmds, rs, cmd, r, a, b);
  }

  /** In every state of a run from an empty table. */
  lemma {:induction false} RunIsSized(cmds: seq<Command>, rs: seq<Answer>, trace: seq<Abstract>, pages: PageSizes, i: nat)
    requires UsablePages(pages) && Follows(cmds, rs, trace, pages) && trace[0] == NOTHING && forall c | c in cmds :: Acceptable(c)
    requires i <= |cmds|
    ensures AllSized(cmds[..i], rs[..i], trace[i])
  {
    hide Effect, Conserved, AllSized, UsablePages, Acceptable;
    if i == 0 {
      NothingIsSized();
      assert cmds[..0] == [] && rs[..0] == [];
    } else {
      RunIsSized(cmds, rs, trace, pages, i - 1);
      assert cmds[i - 1] in cmds && Effect(cmds[i - 1], rs[i - 1], trace[i - 1], trace[i - 1 + 1], pages);
      EffectKeepsSizes(cmds[..i - 1], rs[..i - 1], cmds[i - 1], rs[i - 1], trace[i - 1], trace[i], pages);
      assert cmds[..i] == cmds[..i - 1] + [cmds[i - 1]] && rs[..i] == rs[..i - 1] + [rs[i - 1]];
    }
  }

  lemma NothingIsSized()
    ensures AllSized([], [], NOTHING)
  {
  }

  /** Everything clips to one window of an entry without a page size, which is all of it. */
  lemma ClipWithoutPageSize(range: Range, length: Word)
    ensures Clip(range, length, 0).Some? <==> 0 < length
  {
    AndZero(range.offset);
    assert Not(PageMask(0)) == 0;
    hide And, RoundUp;
  }

  /** When a range command on an entry that has no page size, or has one, kills. */
  lemma RangeKillsExactly(dict: map<string, Slot>, name: string, range: Range, use: RangeUse)
    requires name in dict ==> !dict[name].flags.maps
    ensures RangeAnswer(dict, name, range, use).0 == Killed <==>
      && use.divides && name in dict && dict[name].pagesize == 0 && 0 < dict[name].length
      && (use.needsMapping ==> dict[name].start.Some?)
  {
    hide And, RoundUp, RoundDown;
    if name in dict {
      ClipWithoutPageSize(range, dict[name].length);
      hide Clip;
    }
  }

  lemma MappingSurvives(r: Outcome, name: string, range: Option<Range>, flags: Flags, fileSize: Word,
                        a: Abstract, b: Abstract, pages: PageSizes)
    requires Mapping(r, name, range, flags, fileSize, a, b, pages)
    ensures r != Killed
  {
    hide Prepare;
  }

  lemma OnlyTouchKills(cmd: Command, r: Answer, a: Abstract, b: Abstract, pages: PageSizes, cmds: seq<Command>, rs: seq<Answer>)
    requires Effect(cmd, r, a, b, pages) && |cmds| == |rs| && AllSized(cmds, rs, a) && Acceptable(cmd)
    ensures r.outcome == Killed <==>
      && cmd.TouchRange? && cmd.name in a.dict && 0 < a.dict[cmd.name].length
      && !a.dict[cmd.name].kind.Shm? && !Attempted(cmds, rs, cmd.name)
  {
    hide RangeAnswer, LocationRange, Attempted, MapResult, NewEntry, TouchMemory.NonFatal, NextOffset;
    match cmd
    case MbindRange(name, range) => RangeKillsExactly(a.dict, name, range, MBIND);
    case LocateRange(name, range) =>
      RangeKillsExactly(a.dict, name, if name in a.dict then LocationRange(range, a.dict[name].pagesize) else range, WHERE);
    case TouchRange(name, range, rw, _) => RangeKillsExactly(a.dict, name, range, TouchUse(rw));
    case MapSegment(name, range, flags, fileSize) => MappingSurvives(r.outcome, name, range, flags, fileSize, a, b, pages);
    case _ =>
  }

  /**
   * In every run from an empty table a command kills the process if and only if it touches a segment, of nonzero length, that
   * is not shared memory and that no `map` command has named since it was registered.
   */
  lemma KillsExactly(cmds: seq<Command>, rs: seq<Answer>, trace: seq<Abstract>, pages: PageSizes, i: nat)
    requires UsablePages(pages) && Follows(cmds, rs, trace, pages) && trace[0] == NOTHING && forall c | c in cmds :: Acceptable(c)
    requires i < |cmds|
    ensures var cmd, a := cmds[i], trace[i];
      rs[i].outcome == Killed <==>
        && cmd.TouchRange? && cmd.name in a.dict && 0 < a.dict[cmd.name].length
        && (a.dict[cmd.name].kind.Anon? || a.dict[cmd.name].kind.File?) && !Attempted(cmds[..i], rs[..i], cmd.name)
  {
    hide Effect, Conserved, UsablePages, Acceptable, Attempted;
    RunIsSized(cmds, rs, trace, pages, i);
    assert cmds[i] in cmds && Effect(cmds[i], rs[i], trace[i], trace[i + 1], pages);
    OnlyTouchKills(cmds[i], rs[i], trace[i], trace[i + 1], pages, cmds[..i], rs[..i]);
  }

  /** A page is registered and touched without being mapped first. */
  lemma TouchBeforeMapKills(flags: Flags, rs: seq<Answer>, trace: seq<Abstract>, pages: PageSizes)
    requires UsablePages(pages) && !flags.maps
    requires Follows([AddAnon("a", Range(0, 4096), flags), TouchRange("a", Range(0, 0), false, [])], rs, trace, pages)
    requires trace[0] == NOTHING
    ensures rs[1].outcome == Killed
  {
    var cmds := [AddAnon("a", Range(0, 4096), flags), TouchRange("a", Range(0, 0), false, [])];
    assert Effect(cmds[0], rs[0], trace[0], trace[0 + 1], pages);
    FirstRegistration("a", Range(0, 4096), flags, rs[0], trace[1], pages);
    hide Effect, Conserved, UsablePages, Follows;
    assert cmds[..1] == [] + [cmds[0]] && rs[..1] == [] + [rs[0]];
    AttemptedStep([], [], cmds[0], rs[0], "a");
    KillsExactly(cmds, rs, trace, pages, 1);
  }

  lemma FirstRegistration(name: string, range: Range, flags: Flags, r: Answer, b: Abstract, pages: PageSizes)
    requires !flags.maps && Effect(AddAnon(name, range, flags), r, NOTHING, b, pages)
    ensures r.outcome == Done && name in b.dict && b.dict[name] == Fresh(Anon, name, range, flags)
  {
  }
}
