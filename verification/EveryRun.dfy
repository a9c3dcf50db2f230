/** Every run of the process tree delivers a path-routed command: to the process at the path, once, and to nobody else. */
module EveryRun {
  import opened Routing
  import LineShapes
  import opened Pipe
  import opened Protocol
  import opened Progress
  import opened Token
  import opened Delivery

  /** The path is still there: each process has the next one as its listed child of that name. */
  ghost predicate Links(t: State, path: seq<nat>, names: seq<string>) {
    && |path| == |names| + 1 && path[0] == 0 < |t|
    && forall i | 0 <= i < |names| :: Link(t, path[i], names[i], path[i + 1])
  }

  predicate Link(t: State, p: nat, name: string, k: nat) {
    p < k < |t| && ChildNamed(t, p, name, 0) == k
  }

  /** The line that is to reach the `j`th process of the path. */
  function LineAt(names: seq<string>, c: string, j: nat): string
    requires j <= |names|
  {
    PathLine(names[j..], c)
  }

  /**
   * The command has come down to the `j`th process of the path, which runs the line, or it is in the pipe of the next one;
   * those above wait, and those below are idle.
   */
  ghost predicate At(t: State, path: seq<nat>, names: seq<string>, c: string, j: nat, inPipe: bool)
    requires |path| == |names| + 1 && j <= |names|
  {
    && (forall i | 0 <= i < |path| :: path[i] < |t|)
    && (forall i | 0 <= i < j :: t[path[i]].status == Waiting(path[i + 1]))
    && (forall i | j + 1 < i < |path| :: Idle(t[path[i]]))
    && if inPipe then
         && j < |names| && t[path[j]].status == Waiting(path[j + 1])
         && t[path[j + 1]].status.Reading? && t[path[j + 1]].inbox == LineAt(names, c, j + 1) + "\n"
       else
         t[path[j]].status == Running(LineAt(names, c, j)) && (j < |names| ==> Idle(t[path[j + 1]]))
  }

  predicate Idle(p: Process) { p.status.Reading? && p.inbox == "" }

  /** What process `q` has taken by the time the command was taken by the `j`th process of the path. */
  function TakenBy(path: seq<nat>, names: seq<string>, c: string, j: nat, q: nat): seq<string>
    requires |path| == |names| + 1 && j <= |names|
  {
    if j == 0 then [] else if path[j] == q then [LineAt(names, c, j)] else TakenBy(path, names, c, j - 1, q)
  }

  ghost predicate Taken(s: State, t: State, path: seq<nat>, names: seq<string>, c: string, j: nat)
    requires |path| == |names| + 1 && j <= |names|
  {
    |t| == |s| && forall q | 0 <= q < |s| :: t[q].taken == s[q].taken + TakenBy(path, names, c, j, q)
  }

  ghost predicate OnTheWay(s: State, t: State, path: seq<nat>, names: seq<string>, c: string, j: nat, inPipe: bool) {
    && Links(t, path, names) && j <= |names| && At(t, path, names, c, j, inPipe) && Taken(s, t, path, names, c, j)
  }

  /** The process at the path runs the command. */
  ghost predicate Arrived(s: State, t: State, path: seq<nat>, names: seq<string>, c: string) {
    OnTheWay(s, t, path, names, c, |names|, false)
  }

  lemma {:induction false} Ascending(t: State, path: seq<nat>, names: seq<string>, i: nat, j: nat)
    requires Links(t, path, names) && i < j < |path|
    ensures path[i] < path[j]
    decreases j
  {
    if i + 1 < j { Ascending(t, path, names, i, j - 1); }
    assert Link(t, path[j - 1], names[j - 1], path[j]);
  }

  lemma {:induction false} NotTakenLater(t: State, path: seq<nat>, names: seq<string>, c: string, j: nat, k: nat)
    requires Links(t, path, names) && j < k < |path|
    ensures TakenBy(path, names, c, j, path[k]) == []
  {
    if j > 0 {
      Ascending(t, path, names, j, k);
      NotTakenLater(t, path, names, c, j - 1, k);
    }
  }

  /** The child found by name stays the same when others are taken off the list. */
  lemma {:induction false} ChildNamedStays(s: State, t: State, p: nat, name: string, c: nat)
    requires |s| == |t| && c <= |s| && ChildNamed(s, p, name, c) != 0
    requires forall i | 0 <= i < |s| :: t[i].parent == s[i].parent && t[i].name == s[i].name && (s[i].reaped ==> t[i].reaped)
    requires t[ChildNamed(s, p, name, c)].reaped == s[ChildNamed(s, p, name, c)].reaped
    ensures ChildNamed(t, p, name, c) == ChildNamed(s, p, name, c)
    decreases |s| - c
  {
    if c < |s| && !(Listed(s, p, c) && s[c].name == name) {
      ChildNamedStays(s, t, p, name, c + 1);
    }
  }

  /** Nothing that the delivery looks at has changed, or only entries off the path were taken off a list. */
  ghost predicate PathUntouched(t: State, u: State, path: seq<nat>) {
    && |u| == |t|
    && (forall i | 0 <= i < |path| && path[i] < |t| :: u[path[i]] == t[path[i]])
    && (forall q | 0 <= q < |t| :: u[q].parent == t[q].parent && u[q].name == t[q].name && u[q].taken == t[q].taken)
    && (forall q | 0 <= q < |t| :: t[q].reaped ==> u[q].reaped)
  }

  lemma LinksStay(t: State, u: State, path: seq<nat>, names: seq<string>)
    requires Links(t, path, names) && |u| == |t|
    requires forall i | 0 <= i < |t| :: u[i].parent == t[i].parent && u[i].name == t[i].name && (t[i].reaped ==> u[i].reaped)
    requires forall i | 0 <= i < |path| && path[i] < |t| :: u[path[i]].reaped == t[path[i]].reaped
    ensures Links(u, path, names)
  {
    hide ChildNamed;
    forall i | 0 <= i < |names|
      ensures Link(u, path[i], names[i], path[i + 1])
    {
      assert Link(t, path[i], names[i], path[i + 1]);
      ChildNamedStays(t, u, path[i], names[i], 0);
    }
  }

  lemma UntouchedStays(s: State, t: State, u: State, path: seq<nat>, names: seq<string>, c: string, j: nat, inPipe: bool)
    requires OnTheWay(s, t, path, names, c, j, inPipe) && PathUntouched(t, u, path)
    ensures OnTheWay(s, u, path, names, c, j, inPipe)
  {
    hide ChildNamed, PathLine, TakenBy;
    LinksStay(t, u, path, names);
    hide Links;
  }

  /** A process of the path is alive, and so is its parent. */
  lemma PathIsAlive(s: State, t: State, path: seq<nat>, names: seq<string>, c: string, j: nat, inPipe: bool, i: nat)
    requires OnTheWay(s, t, path, names, c, j, inPipe) && i < |path|
    ensures Alive(t, path[i]) && !t[path[i]].status.Quitting?
    ensures i > 0 ==> t[path[i]].parent == path[i - 1] && HoldsParentEnds(t, path[i - 1], path[i])
  {
    hide PathLine, TakenBy, Taken, Under;
    StatusAt(t, path, names, c, j, inPipe, i);
    if i > 0 {
      StatusAt(t, path, names, c, j, inPipe, i - 1);
      assert Link(t, path[i - 1], names[i - 1], path[i]);
    }
  }

  lemma StatusAt(t: State, path: seq<nat>, names: seq<string>, c: string, j: nat, inPipe: bool, i: nat)
    requires |path| == |names| + 1 && j <= |names| && At(t, path, names, c, j, inPipe) && i < |path|
    ensures path[i] < |t|
    ensures t[path[i]].status.Waiting? || t[path[i]].status.Running? || t[path[i]].status.Reading?
  {
    hide PathLine;
    if i > j + 1 {
      assert Idle(t[path[i]]);
    } else if i < j {
      assert t[path[i]].status == Waiting(path[i + 1]);
    }
  }

  /** A process of the path neither leaves nor is taken off a list. */
  lemma NotOnPath(s: State, t: State, path: seq<nat>, names: seq<string>, c: string, j: nat, inPipe: bool, step: Step, i: nat)
    requires OnTheWay(s, t, path, names, c, j, inPipe) && Enabled(t, step) && InBackground(t, step) && i < |path|
    ensures path[i] != TokenOf(t, step)
  {
    PathIsAlive(s, t, path, names, c, j, inPipe, i);
    hide HoldsParentEnds, ReadLine, Dispatch, ChildNamed, PathLine;
  }

  lemma BackgroundStays(s: State, t: State, path: seq<nat>, names: seq<string>, c: string, j: nat, inPipe: bool, step: Step)
    requires OnTheWay(s, t, path, names, c, j, inPipe) && Enabled(t, step) && InBackground(t, step)
    ensures OnTheWay(s, Next(t, step), path, names, c, j, inPipe)
  {
    hide OnTheWay, HoldsParentEnds, ReadLine, Dispatch, Links;
    forall i | 0 <= i < |path|
      ensures path[i] != TokenOf(t, step)
    {
      NotOnPath(s, t, path, names, c, j, inPipe, step, i);
    }
    UntouchedStays(s, t, Next(t, step), path, names, c, j, inPipe);
  }

  // ---- The two steps of a hop ----

  lemma {:induction false} LinesFit(names: seq<string>, c: string, j: nat)
    requires ValidCommand(c) && ValidPath(names) && Fits(PathLine(names, c)) && j <= |names|
    ensures Fits(LineAt(names, c, j)) && (j > 0 ==> OneLine(LineAt(names, c, j)) && Short(LineAt(names, c, j)))
    ensures j < |names| ==> Dispatch(LineAt(names, c, j)) == Forward(names[j], LineAt(names, c, j + 1))
  {
    hide Dispatch, ValidCommand, ValidName, Fits, OneLine, PathLine;
    if j == 0 {
      assert names[0..] == names;
    } else {
      LinesFit(names, c, j - 1);
      NextFits(LineAt(names, c, j - 1), LineAt(names, c, j));
    }
    if j < |names| {
      assert names[j..][1..] == names[j + 1..] && names[j..][0] == names[j];
      OneHop(names[j..], c);
    }
  }

  lemma SendMoves(s: State, t: State, path: seq<nat>, names: seq<string>, c: string, j: nat)
    requires OnTheWay(s, t, path, names, c, j, false) && j < |names|
    requires Dispatch(LineAt(names, c, j)) == Forward(names[j], LineAt(names, c, j + 1))
    ensures Enabled(t, Send(path[j])) && Target(t, path[j]) == path[j + 1]
    ensures OnTheWay(s, Next(t, Send(path[j])), path, names, c, j, true)
  {
    hide PathLine, Dispatch, ChildNamed, TakenBy, HasReader;
    var p, k, line, u := path[j], path[j + 1], LineAt(names, c, j + 1), Next(t, Send(path[j]));
    assert Link(t, p, names[j], k);
    assert "" + (line + "\n") == line + "\n";
    LinksStay(t, u, path, names);
    hide Enabled, Next;
    forall i | 0 <= i < |path| && i != j && i != j + 1
      ensures path[i] != p && path[i] != k
    {
      Distinct(t, path, names, i, j);
      Distinct(t, path, names, i, j + 1);
    }
    hide Links;
  }

  lemma Distinct(t: State, path: seq<nat>, names: seq<string>, i: nat, j: nat)
    requires Links(t, path, names) && i < |path| && j < |path| && i != j
    ensures path[i] != path[j]
  {
    if i < j { Ascending(t, path, names, i, j); } else { Ascending(t, path, names, j, i); }
  }

  lemma ReadMoves(s: State, t: State, path: seq<nat>, names: seq<string>, c: string, j: nat)
    requires OnTheWay(s, t, path, names, c, j, true)
    requires OneLine(LineAt(names, c, j + 1)) && Short(LineAt(names, c, j + 1))
    ensures Enabled(t, Read(path[j + 1])) && OnTheWay(s, Next(t, Read(path[j + 1])), path, names, c, j + 1, false)
  {
    hide PathLine, Dispatch, ChildNamed, HasReader, OneLine, ReadLine;
    var k, line := path[j + 1], LineAt(names, c, j + 1);
    assert Link(t, path[j], names[j], k) && line + "\n" + "" == line + "\n";
    ReadBack(line, "");
    var u := Next(t, Read(k));
    LinksStay(t, u, path, names);
    hide Enabled, Next;
    forall i | 0 <= i < |path| && i != j + 1
      ensures path[i] != k
    {
      Distinct(t, path, names, i, j + 1);
    }
    NotTakenLater(t, path, names, c, j, j + 1);
    hide Links;
    forall q | 0 <= q < |s|
      ensures u[q].taken == s[q].taken + TakenBy(path, names, c, j + 1, q)
    {
      if q == k { assert s[q].taken + [] + [line] == s[q].taken + [line]; }
    }
  }

  // ---- Nothing else moves ----

  lemma OnlyHopsMove(s: State, t: State, path: seq<nat>, names: seq<string>, c: string, j: nat, inPipe: bool, step: Step)
    requires Inv(t, true) && OnTheWay(s, t, path, names, c, j, inPipe) && (inPipe || j < |names|)
    requires j < |names| ==> Dispatch(LineAt(names, c, j)) == Forward(names[j], LineAt(names, c, j + 1))
    requires Enabled(t, step) && !FromOutside(step) && !InBackground(t, step)
    ensures step == if inPipe then Read(path[j + 1]) else Send(path[j])
  {
    hide PathLine, ChildNamed, TakenBy, Taken, HasReader, Dispatch;
    var x := if inPipe then path[j + 1] else path[j];
    PathIsAlive(s, t, path, names, c, j, inPipe, if inPipe then j + 1 else j);
    if !inPipe { SendMoves(s, t, path, names, c, j); }
    assert Link(t, path[j], names[j], path[j + 1]);
    assert HasToken(t, x);
    OnlyTheTokenMoves(t, x, step);
    NoResponseYet(t, x);
    hide Links, HoldsParentEnds, HoldsResponsePipe, Inv;
  }

  /** A process that runs, or has something to read, has not responded. */
  lemma NoResponseYet(t: State, x: nat)
    requires Inv(t, true) && x < |t| && Alive(t, x) && (t[x].status.Running? || t[x].inbox != "")
    ensures t[x].acks == 0
  {
    if x > 0 {
      assert Edge(t, x, true);
      if t[x].inbox != "" { FirstRead(t[x].inbox); }
    }
    hide Reads;
  }

  lemma HopGoesOn(s: State, t: State, path: seq<nat>, names: seq<string>, c: string, j: nat, inPipe: bool)
    requires OnTheWay(s, t, path, names, c, j, inPipe) && (inPipe || j < |names|)
    requires ValidCommand(c) && ValidPath(names) && Fits(PathLine(names, c))
    ensures !Stuck(t)
  {
    hide OnTheWay, Enabled, Next, PathLine, Dispatch, Fits, ValidCommand, ValidPath;
    Bounds(s, t, path, names, c, j, inPipe);
    LinesFit(names, c, j);
    if inPipe {
      LinesFit(names, c, j + 1);
      ReadMoves(s, t, path, names, c, j);
      assert !FromOutside(Read(path[j + 1]));
    } else {
      SendMoves(s, t, path, names, c, j);
      assert !FromOutside(Send(path[j]));
    }
  }

  lemma Bounds(s: State, t: State, path: seq<nat>, names: seq<string>, c: string, j: nat, inPipe: bool)
    requires OnTheWay(s, t, path, names, c, j, inPipe)
    ensures |path| == |names| + 1 && j <= |names| && (inPipe ==> j < |names|)
  {
  }

  // ---- Every run ----

  /** Follows a run from a state on the way: it comes to the arrival, or ends on the way and could go on. */
  lemma {:induction false} FollowRun(s: State, t: State, path: seq<nat>, names: seq<string>, c: string, j: nat, inPipe: bool,
                                     steps: seq<Step>, e: State) returns (m: nat, v: State, arrived: bool)
    requires Inv(t, true) && OnTheWay(s, t, path, names, c, j, inPipe)
    requires ValidCommand(c) && ValidPath(names) && Fits(PathLine(names, c))
    requires Run(t, steps, e) && forall step | step in steps :: !FromOutside(step)
    ensures m <= |steps| && Run(t, steps[..m], v)
    ensures if arrived then Arrived(s, v, path, names, c) else m == |steps| && v == e && !Stuck(e)
    decreases |steps|
  {
    hide OnTheWay, Inv, Enabled, Next, PathLine, Dispatch, Fits, ValidCommand, ValidPath, FromOutside, InBackground;
    Bounds(s, t, path, names, c, j, inPipe);
    m, v, arrived := 0, t, j == |names| && !inPipe;
    assert steps[..0] == [];
    if !arrived {
      if steps == [] {
        HopGoesOn(s, t, path, names, c, j, inPipe);
      } else {
        var step := steps[0];
        var u, j', inPipe' := Next(t, step), j, inPipe;
        StepOnTheWay(s, t, path, names, c, j, inPipe, step);
        StepKeepsInv(t, step, true) by { NotInput(step); }
        if !InBackground(t, step) {
          j', inPipe' := if inPipe then j + 1 else j, !inPipe;
        }
        m, v, arrived := FollowRun(s, u, path, names, c, j', inPipe', steps[1..], e);
        assert steps[..m + 1][0] == step && steps[..m + 1][1..] == steps[1..][..m];
        m := m + 1;
      }
    }
  }

  lemma NotInput(step: Step)
    requires !FromOutside(step)
    ensures InputFits(step)
  {
  }

  lemma StepOnTheWay(s: State, t: State, path: seq<nat>, names: seq<string>, c: string, j: nat, inPipe: bool, step: Step)
    requires Inv(t, true) && OnTheWay(s, t, path, names, c, j, inPipe) && (inPipe || j < |names|)
    requires ValidCommand(c) && ValidPath(names) && Fits(PathLine(names, c))
    requires Enabled(t, step) && !FromOutside(step)
    ensures if InBackground(t, step) then OnTheWay(s, Next(t, step), path, names, c, j, inPipe)
            else OnTheWay(s, Next(t, step), path, names, c, if inPipe then j + 1 else j, !inPipe)
  {
    hide OnTheWay, Inv, Enabled, Next, PathLine, Dispatch, Fits, ValidCommand, ValidPath, FromOutside, InBackground;
    Bounds(s, t, path, names, c, j, inPipe);
    if InBackground(t, step) {
      BackgroundStays(s, t, path, names, c, j, inPipe, step);
    } else {
      LinesFit(names, c, j);
      OnlyHopsMove(s, t, path, names, c, j, inPipe, step);
      if inPipe {
        LinesFit(names, c, j + 1);
        ReadMoves(s, t, path, names, c, j);
      } else {
        SendMoves(s, t, path, names, c, j);
      }
    }
  }

  /**
   * What arrival means: the command and nothing else has been taken, once, at the path and by nobody off the path; and the
   * process at the path executes exactly this command.
   */
  lemma ArrivedMeans(s: State, t: State, path: seq<nat>, names: seq<string>, c: string)
    requires Arrived(s, t, path, names, c)
    ensures ValidCommand(c) && c[0] != '/' && c[0] != '#' ==> Dispatch(c) == Exec(c)
    ensures |t| == |s| && |path| == |names| + 1
    ensures var last := path[|names|];
      last < |t| && t[last].status == Running(c) && t[last].taken == s[last].taken + (if names == [] then [] else [c])
    ensures forall q | 0 <= q < |t| && q !in path :: t[q].taken == s[q].taken
    ensures forall i | 0 <= i < |names| :: path[i] < |t| && t[path[i]].status == Waiting(path[i + 1])
  {
    hide ChildNamed, Link, Dispatch;
    if ValidCommand(c) && c[0] != '/' && c[0] != '#' {
      LineShapes.LocalMeans("", c, "");
      assert "" + (c + "") == c;
    }
    hide ValidCommand;
    assert names[|names|..] == [] && PathLine([], c) == c;
    forall q | 0 <= q < |t| && q !in path
      ensures TakenBy(path, names, c, |names|, q) == []
    {
      OffPath(path, names, c, |names|, q);
    }
  }

  lemma {:induction false} OffPath(path: seq<nat>, names: seq<string>, c: string, j: nat, q: nat)
    requires |path| == |names| + 1 && j <= |names| && q !in path
    ensures TakenBy(path, names, c, j, q) == []
  {
    if j > 0 {
      assert path[j] in path;
      OffPath(path, names, c, j - 1, q);
    }
  }

  /**
   * From every reachable state in lock step with a path of reading children, when the root reads a line with that path that
   * fits: every run without further input comes to the state in which the process at the path runs the command, or can go on.
   * So a run that can go no further has delivered it. `m` is the number of steps up to the arrival.
   */
  lemma EveryRunDelivers(before: seq<Step>, s: State, path: seq<nat>, names: seq<string>, c: string, steps: seq<Step>, e: State)
    returns (m: nat, v: State, arrived: bool)
    requires Run(INIT, before, s) && InputsFit(before) && ValidCommand(c) && ValidPath(names)
    requires PathTo(s, path, names) && path[0] == 0 && s[0].status.Reading? && Fits(PathLine(names, c)) && NUL !in PathLine(names, c)
    requires Run(Next(s, ReadInput(PathLine(names, c))), steps, e) && forall step | step in steps :: !FromOutside(step)
    ensures m <= |steps| && Run(Next(s, ReadInput(PathLine(names, c))), steps[..m], v)
    ensures arrived ==> Arrived(s, v, path, names, c)
    ensures Stuck(e) ==> arrived
  {
    hide Run, PathLine, Dispatch, Fits, ValidCommand, ValidPath, Stuck, OnTheWay, Arrived, InputsFit, PathTo;
    var line := PathLine(names, c);
    InitInv(true);
    RunKeepsInv(INIT, before, s, true);
    FitsOneLine(line);
    StepKeepsInv(s, ReadInput(line), true);
    Starts(s, path, names, c);
    m, v, arrived := FollowRun(s, Next(s, ReadInput(line)), path, names, c, 0, false, steps, e);
  }

  lemma FitsOneLine(line: string)
    requires Fits(line)
    ensures OneLine(line) && InputFits(ReadInput(line))
  {
  }

  lemma Starts(s: State, path: seq<nat>, names: seq<string>, c: string)
    requires PathTo(s, path, names) && path[0] == 0 && s[0].status.Reading?
    ensures OnTheWay(s, With(s, 0, Running(PathLine(names, c))), path, names, c, 0, false)
  {
    hide ChildNamed, PathLine;
    var t := With(s, 0, Running(PathLine(names, c)));
    forall i | 0 <= i < |names|
      ensures Link(s, path[i], names[i], path[i + 1])
    {
      assert Hop(s, path[i], names[i], path[i + 1]);
    }
    LinksStay(s, t, path, names);
    forall i | 0 < i < |path|
      ensures path[i] < |t| && Idle(t[path[i]])
    {
      assert Hop(s, path[i - 1], names[i - 1], path[i]);
    }
    assert names[0..] == names;
    hide Links, Hop, PathTo, Idle, TakenBy;
    NothingTaken(s, t, path, names, c);
  }

  lemma NothingTaken(s: State, t: State, path: seq<nat>, names: seq<string>, c: string)
    requires |path| == |names| + 1 && |t| == |s| && forall q | 0 <= q < |s| :: t[q].taken == s[q].taken
    ensures Taken(s, t, path, names, c, 0)
  {
    assert forall q | 0 <= q < |s| :: s[q].taken + [] == s[q].taken;
  }
}
