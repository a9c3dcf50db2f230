/** Command lines: what a process does with one, and how a line finds its way down the tree of children. */
module Routing {

  const NUL: char := '\0'

  predicate White(c: char) { c == ' ' || c == '\t' }

  /** Ends a child's name. */
  predicate Delim(c: char) { White(c) || c == '/' }

  /** What one pass of the command loop makes of a line; `Overrun` is a child's name with nothing after it. */
  datatype Routed = Skip | Exec(cmd: string) | Listing | Overrun | Forward(child: string, line: string)

  function SkipWhite(s: string): (r: string)
    ensures |r| <= |s| && (r != "" ==> !White(r[0]))
  {
    if s != "" && White(s[0]) then SkipWhite(s[1..]) else s
  }

  function SkipDelims(s: string): (r: string)
    ensures |r| <= |s| && (r != "" ==> !Delim(r[0]))
  {
    if s != "" && Delim(s[0]) then SkipDelims(s[1..]) else s
  }

  function TrimRight(s: string): (r: string)
    ensures r <= s && (r != "" ==> !White(r[|r| - 1]))
  {
    if s != "" && White(s[|s| - 1]) then TrimRight(s[..|s| - 1]) else s
  }

  /** Length of the child's name at the front. */
  function NameLen(s: string): (n: nat)
    ensures n <= |s| && (n < |s| ==> Delim(s[n])) && forall k | 0 <= k < n :: !Delim(s[k])
  {
    if s == "" || Delim(s[0]) then 0 else 1 + NameLen(s[1..])
  }

  /** The text after the leading '/' of a child-directed command. */
  function Route(text: string): Routed {
    var s := SkipDelims(text);
    if s == "" || s[0] == '?' then Listing
    else
      var n := NameLen(s);
      if n == |s| then Overrun
      else Forward(s[..n], (if s[n] == '/' then "/" else "") + SkipWhite(s[n + 1..]))
  }

  function Dispatch(line: string): Routed {
    var s := SkipWhite(line);
    if s == "" || s[0] == '#' then Skip
    else
      var t := TrimRight(s);
      if t != "" && t[0] == '/' then Route(t[1..]) else Exec(t)
  }

  // ---- Round trip of path routing ----

  /** The names by which a child can be reached. */
  predicate ValidName(n: string) {
    n != "" && n[0] != '?' && forall k | 0 <= k < |n| :: !Delim(n[k])
  }

  predicate ValidCommand(c: string) {
    c != "" && !White(c[0]) && !White(c[|c| - 1])
  }

  /** What follows the first name in a printed path: a space and the command, or the path of the other names. */
  function PathTail(names: seq<string>, c: string): string
    requires names != []
    decreases |names|, 0
  {
    if |names| == 1 then " " + c else PathLine(names[1..], c)
  }

  /** `/n1/.../nk c` */
  function PathLine(names: seq<string>, c: string): string
    decreases |names|, 1
  {
    if names == [] then c else "/" + (names[0] + PathTail(names, c))
  }

  lemma {:induction false} NameLenOf(n: string, rest: string)
    requires rest != "" && Delim(rest[0]) && forall k | 0 <= k < |n| :: !Delim(n[k])
    ensures NameLen(n + rest) == |n|
  {
    if n == "" {
      assert n + rest == rest;
    } else {
      NameLenOf(n[1..], rest);
      assert (n + rest)[1..] == n[1..] + rest;
    }
  }

  lemma TrimmedAlready(s: string)
    requires ValidCommand(s)
    ensures SkipWhite(s) == s && TrimRight(s) == s
  {
  }

  /** How paths of one and of two names are written. */
  lemma PathsAreWritten(m: string, n: string, c: string)
    ensures PathLine([n], c) == "/" + n + " " + c
    ensures PathLine([m, n], c) == "/" + m + "/" + n + " " + c
  {
    assert [m, n][1..] == [n] && PathTail([m, n], c) == PathLine([n], c);
  }

  predicate ValidPath(names: seq<string>) {
    forall i | 0 <= i < |names| :: ValidName(names[i])
  }

  lemma {:induction false} PathLineShape(names: seq<string>, c: string)
    requires ValidCommand(c)
    ensures ValidCommand(PathLine(names, c)) && (names != [] ==> PathLine(names, c)[0] == '/')
    ensures names != [] ==> var t := PathTail(names, c); t != "" && !White(t[|t| - 1]) && t[0] == (if |names| == 1 then ' ' else '/')
    decreases |names|
  {
    if |names| == 1 {
      assert (" " + c)[|c|] == c[|c| - 1];
    }
    if names != [] {
      PathLineShape(names[1..], c);
      var t := names[0] + PathTail(names, c);
      assert t[|t| - 1] == PathTail(names, c)[|PathTail(names, c)| - 1];
      assert ("/" + t)[|t|] == t[|t| - 1];
    }
  }

  lemma RouteOf(n: string, tail: string)
    requires ValidName(n) && tail != "" && Delim(tail[0])
    ensures Route(n + tail) == Forward(n, (if tail[0] == '/' then "/" else "") + SkipWhite(tail[1..]))
  {
    var s := n + tail;
    NameLenOf(n, tail);
    assert s[0] == n[0] && SkipDelims(s) == s;
    assert s[..|n|] == n && s[|n| + 1..] == tail[1..];
  }

  lemma DispatchOf(text: string)
    requires text != "" && !White(text[|text| - 1])
    ensures Dispatch("/" + text) == Route(text)
  {
  }

  /** One hop: the first name is taken off, and the child gets the line for the rest of the path. */
  lemma OneHop(names: seq<string>, c: string)
    requires names != [] && ValidCommand(c) && ValidPath(names)
    ensures Dispatch(PathLine(names, c)) == Forward(names[0], PathLine(names[1..], c))
  {
    hide Route, Dispatch, ValidName, ValidCommand, White, Delim;
    var n, tail := names[0], PathTail(names, c);
    PathLineShape(names, c);
    assert Delim(tail[0]) by { DelimsEnd(tail[0]); }
    assert (n + tail)[|n + tail| - 1] == tail[|tail| - 1];
    DispatchOf(n + tail);
    RouteOf(n, tail);
    if |names| == 1 {
      assert tail[1..] == c;
      TrimmedAlready(c);
    } else {
      FirstNameFollows(names[1..], c);
      assert "/" + tail[1..] == tail;
    }
  }

  lemma DelimsEnd(c: char)
    ensures c == ' ' || c == '/' ==> Delim(c)
  {
  }

  lemma FirstNameFollows(names: seq<string>, c: string)
    requires names != [] && ValidCommand(c) && ValidName(names[0])
    ensures SkipWhite(PathLine(names, c)[1..]) == PathLine(names, c)[1..]
  {
  }

  /** Following a line for `k` hops: the names of the children it went through, and the line the last one got. */
  function Follow(line: string, k: nat): (r: (seq<string>, string))
    decreases k
  {
    if k == 0 || !Dispatch(line).Forward? then ([], line)
    else
      var r := Follow(Dispatch(line).line, k - 1);
      ([Dispatch(line).child] + r.0, r.1)
  }

  lemma FollowStep(line: string, child: string, next: string, k: nat)
    requires Dispatch(line) == Forward(child, next)
    ensures Follow(line, k + 1) == ([child] + Follow(next, k).0, Follow(next, k).1)
  {
  }

  lemma FollowNowhere(c: string)
    ensures Follow(PathLine([], c), 0) == ([], c)
  {
  }

  /** Printing a path and following it delivers exactly the command to the named descendant. */
  lemma {:induction false} PathRoundTrip(names: seq<string>, c: string)
    requires ValidCommand(c) && ValidPath(names)
    ensures Follow(PathLine(names, c), |names|) == (names, c)
    decreases |names|
  {
    FollowNowhere(c);
    hide Dispatch, PathLine, PathTail, ValidName, ValidCommand, Follow;
    if names != [] {
      OneHop(names, c);
      FollowStep(PathLine(names, c), names[0], PathLine(names[1..], c), |names| - 1);
      PathRoundTrip(names[1..], c);
      assert [names[0]] + names[1..] == names;
    }
  }

  /** Of the names that `child` accepts, which is every word, exactly the valid ones can be reached. */
  lemma ReachableExactly(n: string, c: string)
    requires ValidCommand(c) && n != "" && forall k | 0 <= k < |n| :: !White(n[k])
    ensures Dispatch("/" + n + " " + c) == Forward(n, c) <==> ValidName(n)
  {
    hide Dispatch, Route, SkipWhite, TrimRight;
    var tail := " " + c;
    assert "/" + n + " " + c == "/" + (n + tail);
    assert (n + tail)[|n + tail| - 1] == c[|c| - 1];
    DispatchOf(n + tail);
    if ValidName(n) {
      RouteOf(n, tail);
      assert tail[1..] == c;
      TrimmedAlready(c);
    } else {
      RoutedNamesAreValid(n + tail);
    }
  }

  /** A child that was given the name "a/b": what is meant for it goes to "a". */
  lemma SlashedNameIsMissed()
    ensures Dispatch("/a/b c") == Forward("a", "/b c") && !ValidName("a/b")
  {
    var n, tail := "a", "/b c";
    assert ValidName(n) && Delim(tail[0]) && !White(tail[|tail| - 1]) && !White(tail[1]) && Delim("a/b"[1]);
    hide Dispatch, Route, ValidName, Delim;
    SlashTail(n, tail);
    assert "/a/b c" == "/" + (n + tail);
  }

  lemma SlashTail(n: string, tail: string)
    requires ValidName(n) && |tail| > 1 && tail[0] == '/' && Delim('/') && !White(tail[|tail| - 1]) && !White(tail[1])
    ensures Dispatch("/" + (n + tail)) == Forward(n, tail)
  {
    hide Dispatch, Route, ValidName, Delim, White;
    assert (n + tail)[|n + tail| - 1] == tail[|tail| - 1];
    DispatchOf(n + tail);
    RouteOf(n, tail);
    assert SkipWhite(tail[1..]) == tail[1..];
    assert "/" + tail[1..] == tail;
  }

  lemma RoutedNamesAreValid(text: string)
    ensures Route(text).Forward? ==> ValidName(Route(text).child)
  {
  }

  // ---- Reading lines ----

  /** `fgets` reads at most this many characters, the newline included. */
  const READ_LIMIT: nat := 254

  /** Position of the first newline, or the length. */
  function LineEnd(s: string): (n: nat)
    ensures n <= |s| && (n < |s| ==> s[n] == '\n') && forall k | 0 <= k < n :: s[k] != '\n'
  {
    if s == "" || s[0] == '\n' then 0 else 1 + LineEnd(s[1..])
  }

  /** One read of the command loop: the line without its newline, and what is left of the input. */
  function ReadLine(input: string): (r: (string, string))
    ensures input != "" ==> |r.1| < |input|
  {
    var n := LineEnd(input);
    if n < |input| && n < READ_LIMIT then (input[..n], input[n + 1..])
    else
      var k := if n < READ_LIMIT then n else READ_LIMIT;
      (input[..k], input[k..])
  }

  predicate OneLine(s: string) {
    forall k | 0 <= k < |s| :: s[k] != '\n'
  }

  /**
   * One read takes the input up to its first newline, which is dropped, or its first 254 characters if there is none among
   * them, or all of it if it is shorter still.
   */
  lemma OneReadTakes(input: string)
    ensures var (line, rest) := ReadLine(input);
      && OneLine(line) && |line| <= 254
      && ((input == line + "\n" + rest && |line| < 254) || (input == line + rest && (rest == "" || |line| == 254)))
  {
    var n := LineEnd(input);
    assert n < |input| ==> input == input[..n] + "\n" + input[n + 1..];
  }

  lemma {:induction false} SkipWhiteOneLine(s: string)
    requires OneLine(s)
    ensures OneLine(SkipWhite(s))
  {
    if s != "" && White(s[0]) { SkipWhiteOneLine(s[1..]); }
  }

  lemma {:induction false} SkipDelimsOneLine(s: string)
    requires OneLine(s)
    ensures OneLine(SkipDelims(s))
  {
    if s != "" && Delim(s[0]) { SkipDelimsOneLine(s[1..]); }
  }

  /** A forwarded line is at least two characters shorter than the one it came from. */
  lemma ForwardShorter(line: string)
    requires Dispatch(line).Forward?
    ensures |Dispatch(line).line| + 2 <= |line|
  {
  }

  lemma ForwardShrinks(line: string)
    requires OneLine(line) && Dispatch(line).Forward?
    ensures OneLine(Dispatch(line).line) && |Dispatch(line).line| + 2 <= |line|
  {
    ForwardShorter(line);
    SkipWhiteOneLine(line);
    var text := TrimRight(SkipWhite(line))[1..];
    SkipDelimsOneLine(text);
    var s := SkipDelims(text);
    SkipWhiteOneLine(s[NameLen(s) + 1..]);
  }

  lemma {:induction false} LineEndOf(line: string, tail: string)
    requires OneLine(line) && tail != "" && tail[0] == '\n'
    ensures LineEnd(line + tail) == |line|
  {
    if line == "" {
      assert line + tail == tail;
    } else {
      LineEndOf(line[1..], tail);
      assert (line + tail)[1..] == line[1..] + tail;
    }
  }

  lemma ReadBack(line: string, rest: string)
    requires OneLine(line) && |line| < READ_LIMIT
    ensures ReadLine(line + "\n" + rest) == (line, rest)
  {
    var tail := "\n" + rest;
    assert line + "\n" + rest == line + tail;
    LineEndOf(line, tail);
    assert (line + tail)[..|line|] == line && (line + tail)[|line| + 1..] == rest;
  }

  /**
   * However long the lines of a script are, at every depth of forwarding the line written to a child is one read there:
   * it is taken whole, and nothing of it is left in the pipe.
   */
  lemma {:induction false} ForwardedLinesFit(input: string, k: nat, rest: string)
    ensures var line := Follow(ReadLine(input).0, k).1;
      && OneLine(line) && |line| <= READ_LIMIT
      && (Dispatch(line).Forward? ==>
            ReadLine(Dispatch(line).line + "\n" + rest) == (Dispatch(line).line, rest))
  {
    var first := ReadLine(input).0;
    FollowStaysShort(first, k);
    var line := Follow(first, k).1;
    if Dispatch(line).Forward? {
      ForwardShrinks(line);
      ReadBack(Dispatch(line).line, rest);
    }
  }

  lemma {:induction false} FollowStaysShort(line: string, k: nat)
    requires OneLine(line)
    ensures OneLine(Follow(line, k).1) && |Follow(line, k).1| <= |line|
    decreases k
  {
    hide Dispatch, OneLine;
    if k > 0 && Dispatch(line).Forward? {
      ForwardShrinks(line);
      FollowStaysShort(Dispatch(line).line, k - 1);
    }
  }

  /** A line read from anything but a script can be too long: from 254 characters on the child sees two commands. */
  lemma LongLinesSplit(line: string, rest: string)
    requires OneLine(line) && READ_LIMIT <= |line|
    ensures ReadLine(line + "\n" + rest) == (line[..READ_LIMIT], line[READ_LIMIT..] + "\n" + rest)
  {
    var tail := "\n" + rest;
    assert line + "\n" + rest == line + tail;
    LineEndOf(line, tail);
    assert (line + tail)[..READ_LIMIT] == line[..READ_LIMIT] && (line + tail)[READ_LIMIT..] == line[READ_LIMIT..] + tail;
    assert line[READ_LIMIT..] + "\n" + rest == line[READ_LIMIT..] + tail;
  }
}
