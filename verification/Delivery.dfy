/** A path-routed command on the process tree: it reaches the process at the end of the path. */
module Delivery {
  import opened Routing
  import opened Pipe
  import opened Protocol

  /** `path` goes down from a process by listed children with these names, all of them reading, with nothing in their pipes. */
  ghost predicate PathTo(s: State, path: seq<nat>, names: seq<string>) {
    && |path| == |names| + 1 && path[0] < |s|
    && forall i | 0 <= i < |names| :: Hop(s, path[i], names[i], path[i + 1])
  }

  predicate Hop(s: State, p: nat, name: string, c: nat) {
    p < c < |s| && ChildNamed(s, p, name, 0) == c && s[c].status.Reading? && s[c].inbox == ""
  }

  lemma {:induction false} SameChildNamed(s: State, t: State, p: nat, name: string, c: nat)
    requires |s| == |t| && c <= |s| && forall i | 0 <= i < |s| :: SameIdentity(s[i], t[i])
    ensures ChildNamed(t, p, name, c) == ChildNamed(s, p, name, c)
    decreases |s| - c
  {
    if c < |s| { SameChildNamed(s, t, p, name, c + 1); }
  }

  /** A short line fits, because forwarding makes it shorter. */
  lemma ShortFits(line: string)
    requires OneLine(line) && Short(line)
    ensures Fits(line)
  {
    hide Dispatch, OneLine;
    if Dispatch(line).Forward? { ForwardShrinks(line); }
  }

  /** What one hop leaves: the parent waits, and the child runs the line, which it has taken whole. */
  function AfterHop(s: State, p: nat, c: nat, line: string): State
    requires p < |s| && c < |s|
  {
    var k := s[c].(status := Running(line), taken := s[c].taken + [line], sent := s[c].sent + [line]);
    s[c := k][p := s[p].(status := Waiting(c))]
  }

  lemma OneHopRuns(s: State, p: nat, name: string, c: nat, line: string)
    requires p < |s| && IsRunning(s, p) && Dispatch(s[p].status.line) == Forward(name, line)
    requires Hop(s, p, name, c) && OneLine(line) && Short(line)
    ensures Run(s, [Send(p), Read(c)], AfterHop(s, p, c, line))
  {
    hide Dispatch, OneLine, ReadLine, ChildNamed, HasReader, HoldsParentEnds, HoldsResponsePipe, Under;
    var t, u := Next(s, Send(p)), AfterHop(s, p, c, line);
    assert "" + (line + "\n") == line + "\n" && line + "\n" + "" == line + "\n";
    ReadBack(line, "");
    assert t[c].inbox == line + "\n";
    assert Enabled(t, Read(c)) && Next(t, Read(c)) == u;
    hide Enabled, Next;
    assert [Send(p), Read(c)][1..] == [Read(c)] && [Read(c)][1..] == [];
    assert Run(u, [], u) && Run(t, [Read(c)], u);
  }

  /** The rest of the path is as it was. */
  lemma HopKeepsPath(s: State, path: seq<nat>, names: seq<string>, line: string)
    requires PathTo(s, path, names) && names != []
    ensures PathTo(AfterHop(s, path[0], path[1], line), path[1..], names[1..])
  {
    hide ChildNamed;
    var t := AfterHop(s, path[0], path[1], line);
    assert Hop(s, path[0], names[0], path[1]);
    Increasing(s, path, names);
    forall i | 0 <= i < |names| - 1
      ensures Hop(t, path[1..][i], names[1..][i], path[1..][i + 1])
    {
      assert Hop(s, path[i + 1], names[i + 1], path[i + 2]);
      SameChildNamed(s, t, path[i + 1], names[i + 1], 0);
    }
  }

  lemma {:induction false} Increasing(s: State, path: seq<nat>, names: seq<string>)
    requires PathTo(s, path, names)
    ensures forall i, j | 0 <= i < j < |path| :: path[i] < path[j]
    decreases |names|
  {
    hide Hop;
    if names != [] {
      HopGoesDown(s, path, names);
      Increasing(s, path[1..], names[1..]);
      forall i, j | 0 <= i < j < |path|
        ensures path[i] < path[j]
      {
        assert path[j] == path[1..][j - 1] && path[1] == path[1..][0];
        if i > 0 { assert path[i] == path[1..][i - 1]; }
      }
    }
  }

  lemma HopGoesDown(s: State, path: seq<nat>, names: seq<string>)
    requires PathTo(s, path, names) && names != []
    ensures path[0] < path[1] && PathTo(s, path[1..], names[1..])
  {
    assert Hop(s, path[0], names[0], path[1]);
    forall i | 0 <= i < |names| - 1
      ensures Hop(s, path[1..][i], names[1..][i], path[1..][i + 1])
    {
      assert Hop(s, path[i + 1], names[i + 1], path[i + 2]);
    }
  }

  /** The state that a command for the process at the end of `path` leads to. */
  ghost predicate Delivered(s: State, path: seq<nat>, c: string, t: State)
    requires path != []
  {
    var last := path[|path| - 1];
    && |t| == |s| && (forall i | 0 <= i < |path| :: path[i] < |s|)
    // the process at the path runs exactly the command, which it took
    && t[last].status == Running(c)
    && t[last].taken == s[last].taken + (if |path| > 1 then [c] else [])
    // everyone above waits for the next one down
    && (forall i | 0 <= i < |path| - 1 :: t[path[i]].status == Waiting(path[i + 1]))
    // nobody else notices
    && (forall q | 0 <= q < |s| && q !in path :: t[q] == s[q])
  }

  /** A process that runs a printed path brings the command to the process at that path, hop by hop. */
  lemma {:induction false} GoesDown(s: State, path: seq<nat>, names: seq<string>, c: string) returns (steps: seq<Step>, t: State)
    requires ValidCommand(c) && ValidPath(names) && PathTo(s, path, names)
    requires s[path[0]].status == Running(PathLine(names, c)) && Fits(PathLine(names, c))
    ensures Run(s, steps, t) && |steps| == 2 * |names| && forall step | step in steps :: !FromOutside(step)
    ensures Delivered(s, path, c, t)
    decreases |names|
  {
    hide Dispatch, ValidCommand, ValidName, Fits, OneLine, Run, AfterHop, Hop, PathTo;
    if names == [] {
      steps, t := [], s;
      assert Run(s, [], s) by { Stays(s); }
      assert PathLine(names, c) == c;
      assert |path| == 1 && path[0] < |s| by { OnePlace(s, path); }
    } else {
      FirstHop(s, path, names);
      var p, k, line := path[0], path[1], PathLine(names[1..], c);
      OneHop(names, c);
      NextFits(PathLine(names, c), line);
      OneHopRuns(s, p, names[0], k, line);
      var u := AfterHop(s, p, k, line);
      HopKeepsPath(s, path, names, line);
      ChildRuns(s, p, k, line);
      var more;
      more, t := GoesDown(u, path[1..], names[1..], c);
      RunsJoin(s, [Send(p), Read(k)], u, more, t);
      steps := [Send(p), Read(k)] + more;
      DeliveredHop(s, path, names, c, line, t);
    }
  }

  lemma Stays(s: State)
    ensures Run(s, [], s)
  {
  }

  lemma OnePlace(s: State, path: seq<nat>)
    requires PathTo(s, path, [])
    ensures |path| == 1 && path[0] < |s|
  {
  }

  lemma FirstHop(s: State, path: seq<nat>, names: seq<string>)
    requires PathTo(s, path, names) && names != []
    ensures |path| == |names| + 1 && Hop(s, path[0], names[0], path[1]) && path[0] < path[1] < |s|
  {
  }

  lemma NextFits(line: string, next: string)
    requires Fits(line) && Dispatch(line).Forward? && Dispatch(line).line == next
    ensures OneLine(next) && Short(next) && Fits(next)
  {
    hide Dispatch, OneLine;
    ForwardIsOneLine(line);
    ShortFits(next);
  }

  lemma ChildRuns(s: State, p: nat, c: nat, line: string)
    requires p < c < |s|
    ensures AfterHop(s, p, c, line)[c].status == Running(line)
  {
  }

  lemma OnePathLine(c: string)
    ensures PathLine([], c) == c
  {
  }

  lemma DeliveredHop(s: State, path: seq<nat>, names: seq<string>, c: string, line: string, t: State)
    requires PathTo(s, path, names) && names != [] && line == PathLine(names[1..], c)
    requires path[0] < |s| && path[1] < |s| && Delivered(AfterHop(s, path[0], path[1], line), path[1..], c, t)
    ensures Delivered(s, path, c, t)
  {
    hide Hop, PathTo, PathLine, AfterHop;
    Increasing(s, path, names);
    FirstHop(s, path, names);
    HopChanges(s, path[0], path[1], line);
    var u, rest, last := AfterHop(s, path[0], path[1], line), path[1..], path[|path| - 1];
    assert rest[|rest| - 1] == last && path[0] !in rest;
    assert t[last].taken == s[last].taken + [c] by {
      if |names| == 1 {
        assert names[1..] == [];
        OnePathLine(c);
      } else {
        assert path[0] < path[1] < last;
      }
    }
    forall i | 0 <= i < |path| - 1
      ensures path[i] < |s| && t[path[i]].status == Waiting(path[i + 1])
    {
      assert path[i + 1] == rest[i];
      if i > 0 { assert path[i] == rest[i - 1]; }
    }
    forall q | 0 <= q < |s| && q !in path
      ensures t[q] == s[q]
    {
      assert path[0] in path && path[1] in path && q !in rest;
    }
  }

  lemma HopChanges(s: State, p: nat, c: nat, line: string)
    requires p < c < |s|
    ensures var u := AfterHop(s, p, c, line);
      && |u| == |s| && u[p].status == Waiting(c) && u[c].taken == s[c].taken + [line]
      && forall q | 0 <= q < |s| && q != p && q != c :: u[q] == s[q]
  {
  }

  /**
   * When everyone reads and the root gets the printed path of a process as a line that fits, the tree has a run in which
   * that process takes and runs exactly the command, everyone above it waits, and nobody else notices.
   */
  lemma PathReachesItsProcess(before: seq<Step>, s: State, path: seq<nat>, names: seq<string>, c: string)
    returns (steps: seq<Step>, t: State)
    requires Run(INIT, before, s) && ValidCommand(c) && ValidPath(names)
    requires PathTo(s, path, names) && path[0] == 0 && s[0].status.Reading? && Fits(PathLine(names, c)) && NUL !in PathLine(names, c)
    ensures Run(INIT, before + [ReadInput(PathLine(names, c))] + steps, t)
    ensures |steps| == 2 * |names| && forall step | step in steps :: !FromOutside(step)
    ensures Delivered(s, path, c, t)
  {
    hide Dispatch, ValidCommand, ValidName, Run, Delivered;
    var line := PathLine(names, c);
    var u := Next(s, ReadInput(line));
    InputRuns(before, s, line);
    InputKeepsPath(s, path, names, line);
    steps, t := GoesDown(u, path, names, c);
    RunsJoin(INIT, before + [ReadInput(line)], u, steps, t);
    InputDelivered(s, path, names, c, line, t);
  }

  lemma InputRuns(before: seq<Step>, s: State, line: string)
    requires Run(INIT, before, s) && Enabled(s, ReadInput(line))
    ensures Run(INIT, before + [ReadInput(line)], Next(s, ReadInput(line)))
  {
    hide Enabled, Next;
    assert [ReadInput(line)][1..] == [];
    assert Run(s, [ReadInput(line)], Next(s, ReadInput(line)));
    RunsJoin(INIT, before, s, [ReadInput(line)], Next(s, ReadInput(line)));
  }

  lemma InputKeepsPath(s: State, path: seq<nat>, names: seq<string>, line: string)
    requires PathTo(s, path, names) && Enabled(s, ReadInput(line))
    ensures PathTo(With(s, 0, Running(line)), path, names)
  {
    hide ChildNamed, OneLine;
    forall i | 0 <= i < |names|
      ensures Hop(With(s, 0, Running(line)), path[i], names[i], path[i + 1])
    {
      assert Hop(s, path[i], names[i], path[i + 1]);
      SameChildNamed(s, With(s, 0, Running(line)), path[i], names[i], 0);
    }
  }

  lemma InputDelivered(s: State, path: seq<nat>, names: seq<string>, c: string, line: string, t: State)
    requires PathTo(s, path, names) && path[0] == 0 && Delivered(With(s, 0, Running(line)), path, c, t)
    ensures Delivered(s, path, c, t)
  {
    hide Hop;
    Increasing(s, path, names);
    assert path[0] in path;
  }
}
