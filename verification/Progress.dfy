/** Whatever its input, the process tree never deadlocks, and it finishes the work on every line in a bounded number of steps. */
module Progress {
  import opened Routing
  import opened Pipe
  import opened Protocol

  /** Nothing can happen unless the root gets input. */
  ghost predicate Stuck(s: State) {
    forall step | !FromOutside(step) :: !Enabled(s, step)
  }

  lemma Settled(s: State, p: nat)
    requires Inv(s, false) && Stuck(s) && p < |s|
    ensures s[p].status.Reading? || s[p].status.Waiting? || s[p].status.Dead?
  {
    assert !Enabled(s, Respond(p)) && !Enabled(s, Hangup(p)) && !Enabled(s, Exit(p));
    assert !Enabled(s, Local(p)) && !Enabled(s, Send(p)) && !Enabled(s, BrokenPipe(p));
  }

  predicate Orphan(s: State, o: nat) {
    0 < o < |s| && Alive(s, o) && !Alive(s, s[o].parent)
  }

  /** From a live process up to a dead one there is an orphan on the way. */
  lemma {:induction false} OrphanOnTheWay(s: State, q: nat, a: nat) returns (z: nat)
    requires Inv(s, false) && Alive(s, q) && Under(s, q, a) && a < |s|
    requires !Alive(s, a) || (0 < a && !Alive(s, s[a].parent))
    ensures Orphan(s, z) && a <= z && (!Alive(s, a) ==> z != a)
    decreases q
  {
    if q == a {
      z := q;
    } else {
      var p := s[q].parent;
      UnderIsOlder(s, q, a);
      if Alive(s, p) {
        z := OrphanOnTheWay(s, p, a);
      } else {
        z := q;
      }
    }
  }

  /** A stuck process waits for nobody if nobody younger waits or is an orphan. */
  lemma WaiterGoesOn(s: State, p: nat)
    requires Inv(s, false) && Stuck(s) && p < |s| && s[p].status.Waiting?
    requires forall q | p < q < |s| :: !s[q].status.Waiting? && !Orphan(s, q)
    ensures exists step :: !FromOutside(step) && Enabled(s, step)
  {
    hide Stuck;
    var c := s[p].status.child;
    assert Listed(s, p, c) && Edge(s, c, false);
    if s[c].acks > 0 {
      assert Enabled(s, TakeAck(p));
    } else if Alive(s, c) {
      Settled(s, c);
      SomethingToRead(s[c]);
      assert Enabled(s, Read(c));
    } else {
      forall q
        ensures !HoldsResponsePipe(s, q, c)
      {
        if HoldsResponsePipe(s, q, c) {
          var z := OrphanOnTheWay(s, q, c);
          assert false;
        }
      }
      assert Enabled(s, TakeEof(p));
    }
  }

  lemma SomethingToRead(k: Process)
    requires Pending(k) >= 1 && !Busy(k.status) && k.acks == 0
    ensures k.inbox != ""
  {
  }

  /**
   * Descriptors leak to processes forked later, so an orphan may not see the end of its input while they live.
   * But the youngest orphan does, once it has read what is left in its pipe.
   */
  lemma YoungestOrphanLeaves(s: State, x: nat)
    requires Inv(s, false) && Stuck(s) && Orphan(s, x) && !s[x].status.Waiting?
    requires forall o | x < o < |s| :: !Orphan(s, o)
    ensures exists step :: !FromOutside(step) && Enabled(s, step)
  {
    assert Edge(s, x, false);
    Settled(s, x);
    hide Stuck;
    if s[x].inbox != "" {
      assert Enabled(s, Read(x));
    } else {
      forall q
        ensures !HoldsParentEnds(s, q, x)
      {
        if HoldsParentEnds(s, q, x) {
          var g :| x < g < |s| && s[g].parent == s[x].parent && Under(s, q, g);
          var z := OrphanOnTheWay(s, q, g);
          assert false;
        }
      }
      assert Enabled(s, Eof(x));
    }
  }

  /** From the youngest process down: nobody waits, and nobody is an orphan. */
  lemma {:induction false} NobodyHangs(s: State, x: nat)
    requires Inv(s, false) && Stuck(s) && x <= |s|
    ensures forall p | x <= p < |s| :: !s[p].status.Waiting? && !Orphan(s, p)
    decreases |s| - x
  {
    hide Inv, Orphan;
    if x < |s| {
      NobodyHangs(s, x + 1);
      if s[x].status.Waiting? {
        WaiterGoesOn(s, x);
        assert false;
      } else if Orphan(s, x) {
        YoungestOrphanLeaves(s, x);
        assert false;
      }
    }
  }

  /** Everyone alive reads, with nothing in the command pipes, and below a live parent. */
  ghost predicate AtRest(s: State) {
    && (forall p | 0 <= p < |s| :: s[p].status.Reading? || s[p].status.Dead?)
    && (forall p | 0 <= p < |s| :: s[p].inbox == "")
    && (forall p | 0 <= p < |s| :: !Orphan(s, p))
  }

  /**
   * No deadlock: when nothing but input can move a reachable state, it is at rest. If the root's lines fit, no response is
   * left over either.
   */
  lemma NoDeadlock(steps: seq<Step>, s: State)
    requires Run(INIT, steps, s) && Stuck(s)
    ensures AtRest(s)
    ensures InputsFit(steps) ==> forall p | 0 <= p < |s| :: s[p].acks == 0
  {
    InitInv(false);
    RunKeepsInv(INIT, steps, s, false);
    NobodyHangs(s, 0);
    forall p | 0 <= p < |s|
      ensures (s[p].status.Reading? || s[p].status.Dead?) && s[p].inbox == ""
    {
      Settled(s, p);
      if p > 0 {
        assert Edge(s, p, false);
        assert Enabled(s, Read(p)) || !s[p].status.Reading? || s[p].inbox == "";
      }
    }
    if InputsFit(steps) {
      InitInv(true);
      RunKeepsInv(INIT, steps, s, true);
      forall p | 0 <= p < |s|
        ensures s[p].acks == 0
      {
        if p > 0 {
          assert Edge(s, p, true) && !IsWaitingOn(s, s[p].parent, p);
        }
      }
    }
  }

  // ---- Bounded work ----

  /** An upper bound on the steps that a line can cause, wherever it is. */
  function LineWork(line: string): (w: nat)
    ensures w >= 13
  {
    13 + (if |line| <= READ_LIMIT then 4 else 5) * |line|
  }

  function StatusWork(st: Status): nat {
    match st
    case Dead => 0
    case Quitting => 1
    case Failing => 1
    case Reading => 2
    case Starting => 5
    case Responding => 5
    case Waiting(_) => 6
    case Running(line) => LineWork(line)
  }

  function InboxWork(lines: seq<string>): nat {
    if lines == [] then 0 else LineWork(lines[0]) + InboxWork(lines[1..])
  }

  function ProcessWork(p: Process): nat {
    StatusWork(p.status) + InboxWork(Reads(p.inbox)) + p.acks + One(!p.reaped)
  }

  function Work(s: State): nat {
    if s == [] then 0 else Work(s[..|s| - 1]) + ProcessWork(s[|s| - 1])
  }

  lemma {:induction false} WorkUpdate(s: State, i: nat, p: Process)
    requires i < |s|
    ensures Work(s[i := p]) + ProcessWork(s[i]) == Work(s) + ProcessWork(p)
    decreases |s|
  {
    var t := s[i := p];
    if i == |s| - 1 {
      assert t[..|s| - 1] == s[..|s| - 1];
    } else {
      WorkUpdate(s[..|s| - 1], i, p);
      assert t[..|s| - 1] == s[..|s| - 1][i := p];
    }
  }

  lemma {:induction false} InboxWorkAppend(a: seq<string>, b: seq<string>)
    ensures InboxWork(a + b) == InboxWork(a) + InboxWork(b)
  {
    if a == [] {
      assert a + b == b;
    } else {
      InboxWorkAppend(a[1..], b);
      assert (a + b)[1..] == a[1..] + b;
    }
  }

  /** A line that is cut into several reads causes the more work, but not by much. */
  lemma {:induction false} ReadsWork(line: string)
    requires OneLine(line)
    ensures if Short(line) then InboxWork(Reads(line + "\n")) == LineWork(line)
            else 254 * InboxWork(Reads(line + "\n")) <= 13 * (|line| + 254) + 1016 * |line|
    decreases |line|
  {
    assert line + "\n" + "" == line + "\n";
    hide ReadLine, Reads;
    FirstRead(line + "\n");
    if Short(line) {
      ReadsOfLine(line);
    } else {
      var first, rest := line[..READ_LIMIT], line[READ_LIMIT..];
      LongLinesSplit(line, "");
      assert rest + "\n" + "" == rest + "\n";
      ReadsWork(rest);
      InboxWorkAppend([first], Reads(rest + "\n"));
      assert InboxWork([first]) == LineWork(first) == 13 + 4 * 254;
    }
  }

  /** Forwarding a line makes less work than the line itself was. */
  lemma ForwardedWork(line: string)
    requires OneLine(line) && Dispatch(line).Forward?
    ensures InboxWork(Reads(Dispatch(line).line + "\n")) + 7 <= LineWork(line)
  {
    hide Dispatch, Reads, InboxWork, OneLine;
    ForwardShorter(line);
    ForwardIsOneLine(line);
    ReadsWork(Dispatch(line).line);
  }

  lemma LastWork(s: State)
    requires s != []
    ensures Work(s) == Work(s[..|s| - 1]) + ProcessWork(s[|s| - 1])
  {
  }

  lemma SpawnUsesWork(s: State, p: nat, name: string)
    requires Inv(s, false) && Enabled(s, Spawn(p, name))
    ensures Work(Next(s, Spawn(p, name))) + 1 <= Work(s)
  {
    hide Work, InboxWork, Reads, Dispatch, LineWork, Inv;
    EmptyInboxNoWork();
    var t := Next(s, Spawn(p, name));
    var u := t[..|s|];
    LastWork(t);
    assert u == s[p := s[p].(status := Waiting(|s|))];
    WorkUpdate(s, p, u[p]);
  }

  lemma SendUsesWork(s: State, p: nat)
    requires Inv(s, false) && Enabled(s, Send(p))
    ensures Work(Next(s, Send(p))) + 1 <= Work(s)
  {
    hide Work, InboxWork, Reads, ReadLine, Dispatch, OneLine, Fits, Stream, AllOneLine, AllShort, LineWork;
    var t, c, line := Next(s, Send(p)), Target(s, p), Dispatch(s[p].status.line).line;
    assert Edge(s, c, false) && LineOk(s[p], false);
    ForwardedWork(s[p].status.line);
    ReadsAppendLine(s[c].inbox, line);
    InboxWorkAppend(Reads(s[c].inbox), Reads(line + "\n"));
    var u := s[c := t[c]];
    assert t == u[p := t[p]] && u[p] == s[p];
    WorkUpdate(s, c, t[c]);
    WorkUpdate(u, p, t[p]);
    hide Inv, Edge, Ended;
  }

  lemma ReadUsesWork(s: State, p: nat)
    requires Inv(s, false) && Enabled(s, Read(p))
    ensures Work(Next(s, Read(p))) + 1 <= Work(s)
  {
    hide Work, InboxWork, Reads, ReadLine, LineWork, Inv;
    var (line, rest) := ReadLine(s[p].inbox);
    FirstRead(s[p].inbox);
    InboxWorkAppend([line], Reads(rest));
    OneInInbox(line);
    MoveUsesWork(s, Next(s, Read(p)), p);
  }

  lemma EmptyInboxNoWork()
    ensures InboxWork(Reads("")) == 0
  {
  }

  lemma OneInInbox(line: string)
    ensures InboxWork([line]) == LineWork(line)
  {
  }

  lemma TakeUsesWork(s: State, step: Step)
    requires Inv(s, false) && Enabled(s, step) && (step.TakeAck? || step.TakeEof?)
    ensures Work(Next(s, step)) + 1 <= Work(s)
  {
    hide Work, InboxWork, Reads, ReadLine, Dispatch, OneLine, Fits, Stream, AllOneLine, AllShort, LineWork, Ended;
    var t, p := Next(s, step), step.p;
    var c := s[p].status.child;
    assert Listed(s, p, c) && Edge(s, c, false);
    var u := s[c := t[c]];
    assert t == u[p := t[p]] && u[p] == s[p];
    WorkUpdate(s, c, t[c]);
    WorkUpdate(u, p, t[p]);
    hide Work, Inv, Edge;
  }

  lemma MoveUsesWork(s: State, t: State, p: nat)
    requires p < |s| == |t| && t == s[p := t[p]] && ProcessWork(t[p]) + 1 <= ProcessWork(s[p])
    ensures Work(t) + 1 <= Work(s)
  {
  }

  /** Every step but the root's reading uses up work; reading a line adds what the line can cause. */
  lemma StepUsesWork(s: State, step: Step)
    requires Inv(s, false) && Enabled(s, step)
    ensures Work(Next(s, step)) + 1 <= Work(s) + if step.ReadInput? then LineWork(step.line) else 0
  {
    hide Work, Inv, InboxWork, Reads, ReadLine, Dispatch, LineWork, OneLine;
    var t := Next(s, step);
    EmptyInboxNoWork();
    match step
    case ReadInput(line) => WorkUpdate(s, 0, t[0]);
    case EndOfInput => MoveUsesWork(s, t, 0);
    case Read(p) => ReadUsesWork(s, p);
    case Eof(p) => MoveUsesWork(s, t, p);
    case Respond(p) => MoveUsesWork(s, t, p);
    case Local(p) => MoveUsesWork(s, t, p);
    case Fail(p) => MoveUsesWork(s, t, p);
    case Quit(p) => MoveUsesWork(s, t, p);
    case Hangup(p) => MoveUsesWork(s, t, p);
    case Spawn(p, name) => SpawnUsesWork(s, p, name);
    case Send(p) => SendUsesWork(s, p);
    case BrokenPipe(p) => MoveUsesWork(s, t, p);
    case TakeAck(_) => TakeUsesWork(s, step);
    case TakeEof(_) => TakeUsesWork(s, step);
    case Exit(p) => MoveUsesWork(s, t, p);
    case Reap(c) => MoveUsesWork(s, t, c);
  }

  function InputWork(steps: seq<Step>): nat {
    if steps == [] then 0 else (if steps[0].ReadInput? then LineWork(steps[0].line) else 0) + InputWork(steps[1..])
  }

  lemma {:induction false} RunUsesWork(s: State, steps: seq<Step>, t: State)
    requires Inv(s, false) && Run(s, steps, t)
    ensures |steps| + Work(t) <= Work(s) + InputWork(steps)
    decreases |steps|
  {
    hide Work, Inv, Enabled, Next;
    if steps != [] {
      StepUsesWork(s, steps[0]);
      StepKeepsInv(s, steps[0], false);
      RunUsesWork(Next(s, steps[0]), steps[1..], t);
    }
  }

  /**
   * Whatever the tree is doing, it comes to rest by itself: without further input only so many steps are possible, and
   * when no more are, everyone alive is reading and nothing is left in a pipe.
   */
  lemma ComesToRest(before: seq<Step>, s: State, steps: seq<Step>, t: State)
    requires Run(INIT, before, s) && Run(s, steps, t) && forall step | step in steps :: !FromOutside(step)
    ensures |steps| <= Work(s)
    ensures Stuck(t) ==> AtRest(t)
  {
    InitInv(false);
    RunKeepsInv(INIT, before, s, false);
    RunUsesWork(s, steps, t);
    NoInputNoWork(steps);
    if Stuck(t) {
      RunsJoin(INIT, before, s, steps, t);
      NoDeadlock(before + steps, t);
    }
  }

  lemma {:induction false} NoInputNoWork(steps: seq<Step>)
    requires forall step | step in steps :: !FromOutside(step)
    ensures InputWork(steps) == 0
  {
    if steps != [] {
      assert steps[0] in steps;
      NoInputNoWork(steps[1..]);
    }
  }

  /** The lines that the root reads in a run. */
  function InputLines(steps: seq<Step>): seq<string> {
    if steps == [] then [] else (if steps[0].ReadInput? then [steps[0].line] else []) + InputLines(steps[1..])
  }

  function Characters(lines: seq<string>): nat {
    if lines == [] then 0 else |lines[0]| + Characters(lines[1..])
  }

  lemma {:induction false} InputWorkIsBounded(steps: seq<Step>)
    ensures InputWork(steps) <= 13 * |InputLines(steps)| + 5 * Characters(InputLines(steps))
  {
    if steps != [] {
      InputWorkIsBounded(steps[1..]);
      if steps[0].ReadInput? {
        assert InputLines(steps)[1..] == InputLines(steps[1..]);
      } else {
        assert InputLines(steps) == InputLines(steps[1..]);
      }
    }
  }

  /** A run is never longer than its input allows: at most 13 steps for every line and 5 for every character of it. */
  lemma BoundedWork(steps: seq<Step>, s: State)
    requires Run(INIT, steps, s)
    ensures |steps| <= 3 + 13 * |InputLines(steps)| + 5 * Characters(InputLines(steps))
  {
    InitInv(false);
    RunUsesWork(INIT, steps, s);
    InputWorkIsBounded(steps);
    assert INIT[..0] == [] && Work(INIT) == 3;
  }
}
