/** What happens when an interactive root forwards a line that is more than one read: two processes execute at once. */
module LongLines {
  import opened Routing
  import opened Pipe
  import opened Protocol

  const SPAWN_LINE: string := "child a"

  /** `/a <command>` */
  function ToChild(c: string): string { "/a " + c }

  function Root(st: Status): Process {
    Process(0, "", st, "", 0, [], [], 0, false)
  }

  function Kid(st: Status, inbox: string, acks: nat, sent: seq<string>, taken: seq<string>, acked: nat): Process {
    Process(0, "a", st, inbox, acks, sent, taken, acked, false)
  }

  lemma SpawnLineIsLocal()
    ensures OneLine(SPAWN_LINE) && NUL !in SPAWN_LINE && Dispatch(SPAWN_LINE).Exec? && Fits(SPAWN_LINE)
  {
    TrimmedAlready(SPAWN_LINE);
  }

  lemma ToChildIsForwarded(c: string)
    requires ValidCommand(c) && OneLine(c) && NUL !in c
    ensures OneLine(ToChild(c)) && NUL !in ToChild(c) && Dispatch(ToChild(c)) == Forward("a", c)
  {
    hide Dispatch, ValidCommand;
    assert ToChild(c) == "/" + "a" + " " + c;
    ReachableExactly("a", c);
    assert ValidName("a");
    assert OneLine(ToChild(c)) by {
      forall k | 0 <= k < |ToChild(c)|
        ensures ToChild(c)[k] != '\n'
      {
        if k >= 3 { assert ToChild(c)[k] == c[k - 3]; }
      }
    }
  }

  lemma TheKid(root: Process, kid: Process)
    requires kid.parent == 0 && kid.name == "a" && !kid.reaped
    ensures ChildNamed([root, kid], 0, "a", 0) == 1
    ensures forall name :: ChildNamed([root, kid], 1, name, 0) == 0
  {
    var s := [root, kid];
    assert ChildNamed(s, 0, "a", 1) == 1;
    forall name
      ensures ChildNamed(s, 1, name, 0) == 0
    {
      assert ChildNamed(s, 1, name, 2) == 0 && ChildNamed(s, 1, name, 1) == 0;
    }
  }

  lemma Extend(steps: seq<Step>, s: State, step: Step, t: State)
    requires Run(INIT, steps, s) && Enabled(s, step) && Next(s, step) == t
    ensures Run(INIT, steps + [step], t)
  {
    hide Enabled, Next;
    assert Run(s, [step], t) by { assert [step][1..] == []; }
    RunsJoin(INIT, steps, s, [step], t);
  }

  // ---- The steps of a root with one child ----

  lemma RootReads(steps: seq<Step>, kid: Process, line: string)
    requires Run(INIT, steps, [Root(Reading), kid]) && OneLine(line) && NUL !in line
    ensures Run(INIT, steps + [ReadInput(line)], [Root(Running(line)), kid])
  {
    hide Run, OneLine;
    Extend(steps, [Root(Reading), kid], ReadInput(line), [Root(Running(line)), kid]);
  }

  lemma RootSends(steps: seq<Step>, kid: Process, line: string, c: string)
    requires Dispatch(line) == Forward("a", c)
    requires kid.parent == 0 && kid.name == "a" && !kid.reaped && !kid.status.Dead?
    requires Run(INIT, steps, [Root(Running(line)), kid])
    ensures Run(INIT, steps + [Send(0)], [Root(Waiting(1)), kid.(inbox := kid.inbox + (c + "\n"), sent := kid.sent + [c])])
  {
    hide Run, Dispatch, ChildNamed;
    TheKid(Root(Running(line)), kid);
    Extend(steps, [Root(Running(line)), kid], Send(0),
           [Root(Waiting(1)), kid.(inbox := kid.inbox + (c + "\n"), sent := kid.sent + [c])]);
  }

  lemma RootGoesOn(steps: seq<Step>, kid: Process)
    requires Run(INIT, steps, [Root(Waiting(1)), kid]) && kid.acks > 0
    ensures Run(INIT, steps + [TakeAck(0)] + [Respond(0)], [Root(Reading), kid.(acks := kid.acks - 1)])
  {
    hide Run;
    var after := kid.(acks := kid.acks - 1);
    Extend(steps, [Root(Waiting(1)), kid], TakeAck(0), [Root(Responding), after]);
    Extend(steps + [TakeAck(0)], [Root(Responding), after], Respond(0), [Root(Reading), after]);
  }

  lemma KidReads(steps: seq<Step>, root: Process, kid: Process, line: string, rest: string)
    requires Run(INIT, steps, [root, kid]) && kid.status.Reading? && kid.inbox != "" && ReadLine(kid.inbox) == (line, rest)
    ensures Run(INIT, steps + [Read(1)], [root, kid.(status := Running(line), inbox := rest, taken := kid.taken + [line])])
  {
    hide Run, ReadLine;
    Extend(steps, [root, kid], Read(1), [root, kid.(status := Running(line), inbox := rest, taken := kid.taken + [line])]);
  }

  lemma KidWorks(steps: seq<Step>, root: Process, kid: Process)
    requires Run(INIT, steps, [root, kid]) && kid.status.Running? && kid.parent == 0 && kid.name == "a" && !kid.reaped
    ensures Run(INIT, steps + [Local(1)], [root, kid.(status := Responding)])
  {
    hide Run, Dispatch, ChildNamed;
    TheKid(root, kid);
    Extend(steps, [root, kid], Local(1), [root, kid.(status := Responding)]);
  }

  lemma KidResponds(steps: seq<Step>, root: Process, kid: Process)
    requires Run(INIT, steps, [root, kid]) && (kid.status.Responding? || kid.status.Starting?)
    requires kid.parent == 0 && !root.status.Dead?
    ensures Run(INIT, steps + [Respond(1)], [root, kid.(status := Reading, acks := kid.acks + 1, acked := kid.acked + 1)])
  {
    hide Run;
    assert HoldsParentEnds([root, kid], 0, 1);
    Extend(steps, [root, kid], Respond(1), [root, kid.(status := Reading, acks := kid.acks + 1, acked := kid.acked + 1)]);
  }

  lemma FirstSpawn()
    ensures Run(INIT, [] + [ReadInput(SPAWN_LINE)] + [Spawn(0, "a")], [Root(Waiting(1)), Kid(Starting, "", 0, [], [], 0)])
  {
    SpawnLineIsLocal();
    hide Dispatch, OneLine, Fits, SPAWN_LINE;
    assert Run(INIT, [], INIT);
    hide Run;
    var r0 := [Root(Running(SPAWN_LINE))];
    Extend([], INIT, ReadInput(SPAWN_LINE), r0);
    assert ChildNamed(r0, 0, "a", 1) == 0 && ChildNamed(r0, 0, "a", 0) == 0;
    Extend([] + [ReadInput(SPAWN_LINE)], r0, Spawn(0, "a"), [Root(Waiting(1)), Kid(Starting, "", 0, [], [], 0)]);
  }

  // ---- The run ----

  function Spawning(): seq<Step> {
    [] + [ReadInput(SPAWN_LINE)] + [Spawn(0, "a")] + [Respond(1)] + [TakeAck(0)] + [Respond(0)]
  }

  function FirstHalf(c: string): seq<Step> {
    Spawning() + [ReadInput(ToChild(c))] + [Send(0)] + [Read(1)] + [Local(1)] + [Respond(1)] + [TakeAck(0)] + [Respond(0)]
  }

  function SecondHalf(c: string): seq<Step> {
    FirstHalf(c) + [ReadInput(ToChild(c))] + [Read(1)]
  }

  lemma Spawned()
    ensures Run(INIT, Spawning(), [Root(Reading), Kid(Reading, "", 0, [], [], 1)])
  {
    hide Run;
    FirstSpawn();
    var steps := [] + [ReadInput(SPAWN_LINE)] + [Spawn(0, "a")];
    KidResponds(steps, Root(Waiting(1)), Kid(Starting, "", 0, [], [], 0));
    RootGoesOn(steps + [Respond(1)], Kid(Reading, "", 1, [], [], 1));
  }

  /** The child has executed the first 254 characters and the root has gone on; the rest is still in the pipe. */
  lemma FirstHalfRuns(c: string)
    requires ValidCommand(c) && OneLine(c) && NUL !in c && !Short(c)
    ensures Run(INIT, FirstHalf(c), [Root(Reading), Kid(Reading, c[READ_LIMIT..] + "\n", 0, [c], [c[..READ_LIMIT]], 2)])
  {
    Spawned();
    ToChildIsForwarded(c);
    LongLinesSplit(c, "");
    var line, first, rest := ToChild(c), c[..READ_LIMIT], c[READ_LIMIT..] + "\n";
    assert c + "\n" + "" == c + "\n" && rest + "" == rest && "" + (c + "\n") == c + "\n" && [] + [c] == [c] && [] + [first] == [first];
    hide Run, Dispatch, OneLine, ReadLine, ValidCommand, Spawning, ToChild;
    var steps := Spawning();
    RootReads(steps, Kid(Reading, "", 0, [], [], 1), line);
    steps := steps + [ReadInput(line)];
    RootSends(steps, Kid(Reading, "", 0, [], [], 1), line, c);
    steps := steps + [Send(0)];
    KidReads(steps, Root(Waiting(1)), Kid(Reading, c + "\n", 0, [c], [], 1), first, rest);
    steps := steps + [Read(1)];
    KidWorks(steps, Root(Waiting(1)), Kid(Running(first), rest, 0, [c], [first], 1));
    steps := steps + [Local(1)];
    KidResponds(steps, Root(Waiting(1)), Kid(Responding, rest, 0, [c], [first], 1));
    RootGoesOn(steps + [Respond(1)], Kid(Reading, rest, 1, [c], [first], 2));
  }

  /** The root reads its next line while the child reads the rest of the last one: both run a command. */
  lemma SecondHalfRuns(c: string) returns (s: State)
    requires ValidCommand(c) && OneLine(c) && NUL !in c && !Short(c)
    ensures Run(INIT, SecondHalf(c), s) && |s| == 2 && s[0].status.Running? && s[1].status.Running?
  {
    FirstHalfRuns(c);
    ToChildIsForwarded(c);
    hide Run, Dispatch, OneLine, ReadLine, ValidCommand, FirstHalf, ToChild;
    var steps, line, rest := FirstHalf(c), ToChild(c), c[READ_LIMIT..] + "\n";
    var kid := Kid(Reading, rest, 0, [c], [c[..READ_LIMIT]], 2);
    RootReads(steps, kid, line);
    var (last, left) := ReadLine(rest);
    KidReads(steps + [ReadInput(line)], Root(Running(line)), kid, last, left);
    s := [Root(Running(line)), kid.(status := Running(last), inbox := left, taken := kid.taken + [last])];
  }

  /** All that the root reads is the line that spawns a child and the one that sends it `c`. */
  predicate OnlySends(steps: seq<Step>, c: string) {
    forall step | step in steps && step.ReadInput? :: step.line == SPAWN_LINE || step.line == ToChild(c)
  }

  ghost predicate TwoExecute(s: State) {
    exists a: nat, b: nat :: a < b < |s| && Executing(s[a].status) && Executing(s[b].status)
  }

  /** A command can be sent to a child without two processes ever executing if and only if it is below the read limit. */
  lemma SafeCommandsExactly(c: string)
    requires ValidCommand(c) && OneLine(c) && NUL !in c
    ensures (forall steps, s: State | Run(INIT, steps, s) && OnlySends(steps, c) :: !TwoExecute(s)) <==> |c| < 254
  {
    hide Run, ValidCommand, OneLine, Dispatch, Fits;
    if |c| < READ_LIMIT {
      forall steps, s: State | Run(INIT, steps, s) && OnlySends(steps, c)
        ensures !TwoExecute(s)
      {
        SafeInputs(steps, c);
        forall a: nat, b: nat | a < b < |s| && Executing(s[a].status)
          ensures !Executing(s[b].status)
        {
          if Executing(s[b].status) { AtMostOneExecutes(steps, s, a, b); }
        }
      }
    } else {
      var s := SecondHalfRuns(c);
      assert OnlySends(SecondHalf(c), c);
      assert Executing(s[0].status) && Executing(s[1].status);
    }
  }

  lemma SafeInputs(steps: seq<Step>, c: string)
    requires ValidCommand(c) && OneLine(c) && NUL !in c && Short(c) && OnlySends(steps, c)
    ensures InputsFit(steps)
  {
    SpawnLineIsLocal();
    ToChildIsForwarded(c);
    hide Dispatch, ToChild, SPAWN_LINE;
  }
}
