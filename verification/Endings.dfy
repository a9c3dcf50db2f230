/** How processes end: what makes one leave, that it then does nothing more, and who is told. */
module Endings {
  import opened Routing
  import opened Pipe
  import opened Protocol
  import opened Progress

  /** The steps after which a process is on its way out, or out. */
  predicate Ends(step: Step) {
    step.Quit? || step.Fail? || step.EndOfInput? || step.Eof? || step.Hangup? || step.BrokenPipe? || step.Exit?
  }

  /** The process that takes a step; being taken off a list is nothing that a process does. */
  function Actor(step: Step): int {
    match step
    case ReadInput(_) => 0
    case EndOfInput => 0
    case Read(p) => p
    case Eof(p) => p
    case Respond(p) => p
    case Local(p) => p
    case Fail(p) => p
    case Quit(p) => p
    case Hangup(p) => p
    case Spawn(p, _) => p
    case Send(p) => p
    case BrokenPipe(p) => p
    case TakeAck(p) => p
    case TakeEof(p) => p
    case Exit(p) => p
    case Reap(_) => -1
  }

  predicate Leaving(st: Status) { st.Failing? || st.Quitting? || st.Dead? }

  /** What a process has done so far: commands read and responses given. */
  predicate SameDeeds(a: Process, b: Process) {
    a.taken == b.taken && a.acked == b.acked
  }

  lemma LeavingStep(s: State, p: nat, step: Step)
    requires Inv(s, false) && Enabled(s, step) && p < |s| && Leaving(s[p].status)
    ensures p < |Next(s, step)| && Leaving(Next(s, step)[p].status) && SameDeeds(Next(s, step)[p], s[p])
    ensures Actor(step) == p ==> step == Exit(p) && Next(s, step)[p].status.Dead?
    ensures s[p].status.Dead? ==> Actor(step) != p && Next(s, step)[p].status.Dead?
  {
    hide Dispatch, ReadLine, HasReader, HoldsParentEnds, HoldsResponsePipe, OneLine;
    if step.Send? {
      assert Edge(s, Target(s, step.p), false);
    } else if step.TakeAck? {
      assert Listed(s, step.p, s[step.p].status.child) && Edge(s, s[step.p].status.child, false);
    }
    hide Inv;
  }

  lemma {:induction false} LeavingRun(s: State, p: nat, steps: seq<Step>, t: State)
    requires Inv(s, false) && Run(s, steps, t) && p < |s| && Leaving(s[p].status)
    ensures p < |t| && Leaving(t[p].status) && SameDeeds(t[p], s[p])
    ensures forall step | step in steps && Actor(step) == p :: step == Exit(p)
    ensures s[p].status.Dead? ==> t[p].status.Dead? && forall step | step in steps :: Actor(step) != p
    decreases |steps|
  {
    hide Inv, Enabled, Next;
    if steps != [] {
      LeavingStep(s, p, steps[0]);
      StepKeepsInv(s, steps[0], false);
      LeavingRun(Next(s, steps[0]), p, steps[1..], t);
      assert steps == [steps[0]] + steps[1..];
    }
  }

  /** What a step that ends a process leaves of it. Only `quit` responds, and only a child has somebody to respond to. */
  lemma EndingStep(s: State, step: Step)
    requires Inv(s, false) && Enabled(s, step) && Ends(step)
    ensures var p, t := Actor(step), Next(s, step);
      && 0 <= p < |t| && Leaving(t[p].status) && t[p].taken == s[p].taken
      && t[p].acked == s[p].acked + (if step.Quit? && p > 0 then 1 else 0)
      && t[p].acks == s[p].acks + (if step.Quit? && p > 0 then 1 else 0)
      && ((step.Hangup? || step.BrokenPipe? || step.Exit?) ==> t[p].status.Dead?)
  {
    hide Dispatch, ReadLine, HasReader, HoldsParentEnds, HoldsResponsePipe, OneLine;
  }

  /** Nothing else ends a process, and no step ends another one than its own. */
  lemma OnlyEndingsEnd(s: State, step: Step, p: nat)
    requires Inv(s, false) && Enabled(s, step) && p < |s| && !Leaving(s[p].status)
    ensures p < |Next(s, step)|
    ensures Leaving(Next(s, step)[p].status) <==> Ends(step) && Actor(step) == p
  {
    hide Dispatch, ReadLine, HasReader, HoldsParentEnds, HoldsResponsePipe, OneLine;
    if step.Send? {
      assert Edge(s, Target(s, step.p), false);
    } else if step.TakeAck? {
      assert Listed(s, step.p, s[step.p].status.child) && Edge(s, s[step.p].status.child, false);
    }
    hide Inv;
  }

  lemma StuckLeaversAreDead(t: State, p: nat)
    requires Stuck(t) && p < |t| && Leaving(t[p].status)
    ensures t[p].status.Dead?
  {
    assert !Enabled(t, Exit(p));
  }

  /**
   * After `quit`, a fatal command error, the end of its input, or a write to a pipe that nobody reads, a process reads, runs,
   * spawns and forwards nothing more; all that it can still do is exit, and when nothing but input can happen it has.
   * `quit` responds to the parent, and none of the others does.
   */
  lemma EndingsAreFinal(before: seq<Step>, s: State, step: Step, steps: seq<Step>, t: State)
    requires Run(INIT, before, s) && Enabled(s, step) && Ends(step) && Run(Next(s, step), steps, t)
    ensures var p := Actor(step);
      && 0 <= p < |s| && p < |t| && Leaving(t[p].status) && t[p].taken == s[p].taken
      && t[p].acked == s[p].acked + (if step.Quit? && p > 0 then 1 else 0)
      && (forall later | later in steps && Actor(later) == p :: later == Exit(p))
      && (Stuck(t) ==> t[p].status.Dead?)
  {
    hide Enabled, Next, Inv, Stuck;
    InitInv(false);
    RunKeepsInv(INIT, before, s, false);
    EndingStep(s, step);
    StepKeepsInv(s, step, false);
    ActorIsThere(s, step);
    LeavingRun(Next(s, step), Actor(step), steps, t);
    if Stuck(t) {
      StuckLeaversAreDead(t, Actor(step));
    }
  }

  lemma ActorIsThere(s: State, step: Step)
    requires Inv(s, false) && Enabled(s, step) && Ends(step)
    ensures 0 <= Actor(step) < |s|
  {
    hide Dispatch, HasReader, HoldsParentEnds;
  }

  // ---- What can happen ----

  /** A command that the process runs itself may do its work, fail, quit, or spawn a child whose name is not in use. */
  lemma CommandsAvailable(s: State, p: nat, name: string)
    requires IsRunning(s, p) && Dispatch(s[p].status.line).Exec?
    ensures Enabled(s, Local(p)) && Enabled(s, Fail(p)) && !Enabled(s, Send(p)) && !Enabled(s, BrokenPipe(p))
    ensures Enabled(s, Quit(p)) <==> p == 0 || exists q :: HoldsParentEnds(s, q, p)
    ensures Enabled(s, Spawn(p, name)) <==> forall c | 0 <= c < |s| && Listed(s, p, c) :: s[c].name != name
  {
    hide Dispatch, HoldsParentEnds;
  }

  /** A new child has the given name and parent, and the parent waits for it. */
  lemma SpawnedIsListed(s: State, p: nat, name: string)
    requires Inv(s, false) && Enabled(s, Spawn(p, name))
    ensures var t := Next(s, Spawn(p, name));
      && |t| == |s| + 1 && Listed(t, p, |s|) && t[|s|].name == name && t[|s|].status.Starting? && IsWaitingOn(t, p, |s|)
      && ChildNamed(t, p, name, 0) == |s|
  {
    hide Dispatch;
    var t := Next(s, Spawn(p, name));
    forall c | 0 <= c < |s| && Listed(t, p, c)
      ensures t[c].name != name
    {
      assert Listed(s, p, c);
    }
    assert Listed(t, p, |s|) && t[|s|].name == name;
    hide Inv, Enabled, Next;
  }

  /** A dead child can be taken off the list of a parent that is not waiting, after which its name can be used again. */
  lemma DeadChildIsReaped(s: State, c: nat)
    requires Inv(s, false) && 0 < c < |s| && s[c].status.Dead? && !s[c].reaped
    ensures Enabled(s, Reap(c)) <==> Alive(s, s[c].parent) && !s[s[c].parent].status.Waiting?
    ensures Enabled(s, Reap(c)) ==> ChildNamed(Next(s, Reap(c)), s[c].parent, s[c].name, 0) == 0
  {
    assert Edge(s, c, false);
    if Enabled(s, Reap(c)) {
      var t, p := Next(s, Reap(c)), s[c].parent;
      var d := ChildNamed(t, p, s[c].name, 0);
      if d != 0 {
        assert Listed(s, p, d) && Listed(s, p, c) && d != c;
        DistinctNames(s, c, d);
      }
    }
  }

  lemma DistinctNames(s: State, c: nat, d: nat)
    requires Inv(s, false) && c < |s| && d < |s| && c != d && s[c].parent == s[d].parent
    requires Listed(s, s[c].parent, c) && Listed(s, s[c].parent, d)
    ensures s[c].name != s[d].name
  {
    hide Edge;
    if c < d {
      assert Listed(s, s[d].parent, c);
    } else {
      assert Listed(s, s[c].parent, d);
    }
  }

  /** Before a child sees the end of its input it has read every byte written to it, and responded to every command. */
  lemma EndOfInputComesLast(steps: seq<Step>, s: State, c: nat)
    requires Run(INIT, steps, s) && Enabled(s, Eof(c))
    ensures s[c].taken == Reads(Stream(s[c].sent)) && s[c].acked == |s[c].taken| + 1
  {
    hide Run, HoldsParentEnds, Stream;
    InitInv(false);
    RunKeepsInv(INIT, steps, s, false);
    NothingToRead();
    assert Edge(s, c, false);
  }

  /** Pipe ends leak: while a process lives that was forked later by the same parent, a child sees no end of its input. */
  lemma YoungerSiblingKeepsPipeOpen(s: State, c: nat, g: nat, q: nat)
    requires 0 < c < g < |s| && s[g].parent == s[c].parent && Alive(s, q) && Under(s, q, g)
    ensures !Enabled(s, Eof(c)) && !Enabled(s, Hangup(c))
  {
    assert HoldsParentEnds(s, q, c);
  }

  /** And a parent sees no end of the responses while a descendant of the child lives, even if the child is dead. */
  lemma DescendantKeepsPipeOpen(s: State, p: nat, c: nat, d: nat)
    requires IsWaitingOn(s, p, c) && 0 < c < d < |s| && s[d].parent == c && Alive(s, d)
    ensures !Enabled(s, TakeEof(p))
  {
    assert Under(s, c, c) && Under(s, d, c);
    assert HoldsResponsePipe(s, d, c);
  }

  /** With its parent and everyone forked later gone, it does, and exits without a response. */
  lemma AbandonedChildLeaves(s: State, c: nat)
    requires 0 < c < |s| && s[c].status.Reading? && s[c].inbox == "" && !Alive(s, s[c].parent)
    requires forall g, q | c < g < |s| && s[g].parent == s[c].parent && Under(s, q, g) :: !Alive(s, q)
    ensures Enabled(s, Eof(c)) && Next(s, Eof(c))[c].status.Quitting?
  {
    forall q
      ensures !HoldsParentEnds(s, q, c)
    {
    }
  }
}
