/** What a command line looks like, written out, and what the command loop makes of each kind of line. */
module LineShapes {
  import opened Routing

  predicate Blank(w: string) {
    forall k | 0 <= k < |w| :: w[k] == ' ' || w[k] == '\t'
  }

  predicate Delims(ds: string) {
    forall k | 0 <= k < |ds| :: ds[k] == ' ' || ds[k] == '\t' || ds[k] == '/'
  }

  /** The parts of a line, in the order in which they are written. */
  datatype Shape =
    | Empty(w: string)
    | Comment(w1: string, text: string)
    | Local(w1: string, cmd: string, w2: string)
    | Question(w1: string, ds: string, text: string)
    | NameOnly(w1: string, ds: string, name: string, w2: string)
    | Directed(w1: string, ds: string, name: string, d: char, w3: string, cmd: string, w2: string)

  function Text(s: Shape): string {
    match s
    case Empty(w) => w
    case Comment(w1, text) => w1 + ("#" + text)
    case Local(w1, cmd, w2) => w1 + (cmd + w2)
    case Question(w1, ds, text) => w1 + ("/" + (ds + text))
    case NameOnly(w1, ds, name, w2) => w1 + ("/" + (ds + name) + w2)
    case Directed(w1, ds, name, d, w3, cmd, w2) => w1 + ("/" + (ds + (name + ([d] + (w3 + cmd)))) + w2)
  }

  predicate IsShape(s: Shape) {
    match s
    case Empty(w) => Blank(w)
    case Comment(w1, _) => Blank(w1)
    case Local(w1, cmd, w2) => Blank(w1) && ValidCommand(cmd) && cmd[0] != '/' && cmd[0] != '#' && Blank(w2)
    case Question(w1, ds, text) => Blank(w1) && Delims(ds) && (text == "" || text[0] == '?')
    case NameOnly(w1, ds, name, w2) => Blank(w1) && Delims(ds) && ValidName(name) && Blank(w2)
    case Directed(w1, ds, name, d, w3, cmd, w2) =>
      && Blank(w1) && Delims(ds) && ValidName(name) && Delim(d) && Blank(w3) && Blank(w2)
      && if cmd == "" then d == '/' && w3 == "" else ValidCommand(cmd)
  }

  /** What becomes of it: nothing, a command of this process, the list of children, or a line for a child. */
  function Meaning(s: Shape): Routed {
    match s
    case Empty(_) => Skip
    case Comment(_, _) => Skip
    case Local(_, cmd, _) => Exec(cmd)
    case Question(_, _, _) => Listing
    case NameOnly(_, _, _, _) => Overrun
    case Directed(_, _, name, d, _, cmd, _) => Forward(name, if d == '/' then "/" + cmd else cmd)
  }

  // ---- The parts are recognised ----

  lemma {:induction false} SkipBlank(w: string, s: string)
    requires Blank(w)
    ensures SkipWhite(w + s) == SkipWhite(s)
  {
    if w == "" {
      assert w + s == s;
    } else {
      SkipBlank(w[1..], s);
      assert (w + s)[1..] == w[1..] + s;
    }
  }

  lemma {:induction false} SkipAll(ds: string, s: string)
    requires Delims(ds)
    ensures SkipDelims(ds + s) == SkipDelims(s)
  {
    if ds == "" {
      assert ds + s == s;
    } else {
      SkipAll(ds[1..], s);
      assert (ds + s)[1..] == ds[1..] + s;
    }
  }

  lemma {:induction false} TrimBlank(s: string, w: string)
    requires Blank(w)
    ensures TrimRight(s + w) == TrimRight(s)
  {
    if w == "" {
      assert s + w == s;
    } else {
      var k := |w| - 1;
      assert (s + w)[..|s + w| - 1] == s + w[..k];
      TrimBlank(s, w[..k]);
    }
  }

  /** What the loop sees of a line: blanks in front and at the end are gone. */
  lemma DispatchOfTrimmed(w1: string, s: string, w2: string)
    requires Blank(w1) && Blank(w2) && s != "" && !White(s[0]) && !White(s[|s| - 1]) && s[0] != '#'
    ensures Dispatch(w1 + (s + w2)) == if s[0] == '/' then Route(s[1..]) else Exec(s)
  {
    SkipBlank(w1, s + w2);
    assert (s + w2)[0] == s[0] && SkipWhite(s + w2) == s + w2;
    TrimBlank(s, w2);
    hide Route;
  }

  lemma {:induction false} TrimRightIs(s: string) returns (k: nat)
    ensures k <= |s| && TrimRight(s) == s[..k] && Blank(s[k..])
  {
    if s != "" && White(s[|s| - 1]) {
      k := TrimRightIs(s[..|s| - 1]);
      assert s[..|s| - 1][..k] == s[..k] && s[k..] == s[..|s| - 1][k..] + [s[|s| - 1]];
    } else {
      k := |s|;
    }
  }

  lemma NotTrimmed(s: string, k: nat, i: nat)
    requires k <= |s| && Blank(s[k..]) && i < |s| && !White(s[i])
    ensures i < k
  {
    assert forall j | k <= j < |s| :: s[k..][j - k] == s[j];
  }

  lemma ListsChildren(ds: string, text: string)
    requires Delims(ds) && (text == "" || text[0] == '?')
    ensures Route(ds + text) == Listing
  {
    SkipAll(ds, text);
  }

  lemma QuestionMeans(w1: string, ds: string, text: string)
    requires Blank(w1) && Delims(ds) && (text == "" || text[0] == '?')
    ensures Dispatch(w1 + ("/" + (ds + text))) == Listing
  {
    hide Route, TrimRight, Blank, Delims;
    var s := "/" + (ds + text);
    SkipBlank(w1, s);
    assert SkipWhite(s) == s;
    var k := TrimRightIs(s);
    NotTrimmed(s, k, 0);
    assert s[..k][1..] == (ds + text)[..k - 1];
    if text == "" {
      assert (ds + text)[..k - 1] == ds[..k - 1] + "";
      PrefixDelims(ds, k - 1);
      ListsChildren(ds[..k - 1], "");
    } else {
      NotTrimmed(s, k, 1 + |ds|);
      assert (ds + text)[..k - 1] == ds + text[..k - 1 - |ds|];
      ListsChildren(ds, text[..k - 1 - |ds|]);
    }
  }

  lemma PrefixDelims(ds: string, k: nat)
    requires Delims(ds) && k <= |ds|
    ensures Delims(ds[..k])
  {
  }

  /** A name, and what follows it if it is delimited. */
  lemma NameIsRead(ds: string, name: string, rest: string)
    requires Delims(ds) && ValidName(name) && (rest == "" || Delim(rest[0]))
    ensures Route(ds + (name + rest)) ==
      if rest == "" then Overrun else Forward(name, (if rest[0] == '/' then "/" else "") + SkipWhite(rest[1..]))
  {
    var s := name + rest;
    SkipAll(ds, s);
    assert SkipDelims(s) == s && s[0] == name[0];
    if rest == "" {
      WholeName(name);
      assert s == name;
    } else {
      NameLenOf(name, rest);
      assert s[..|name|] == name && s[|name| + 1..] == rest[1..];
    }
  }

  lemma {:induction false} WholeName(n: string)
    requires forall k | 0 <= k < |n| :: !Delim(n[k])
    ensures NameLen(n) == |n|
  {
    if n != "" { WholeName(n[1..]); }
  }

  lemma NameOnlyMeans(w1: string, ds: string, name: string, w2: string)
    requires Blank(w1) && Delims(ds) && ValidName(name) && Blank(w2)
    ensures Dispatch(w1 + ("/" + (ds + name) + w2)) == Overrun
  {
    hide Route, Dispatch, Blank, Delims;
    var s := "/" + (ds + name);
    assert s[|s| - 1] == name[|name| - 1] && s[1..] == ds + (name + "");
    assert !White(name[|name| - 1]);
    DispatchOfTrimmed(w1, s, w2);
    NameIsRead(ds, name, "");
    assert w1 + ("/" + (ds + name) + w2) == w1 + (s + w2);
  }

  lemma DirectedMeans(w1: string, ds: string, name: string, d: char, w3: string, cmd: string, w2: string)
    requires IsShape(Directed(w1, ds, name, d, w3, cmd, w2))
    ensures Dispatch(Text(Directed(w1, ds, name, d, w3, cmd, w2))) == Meaning(Directed(w1, ds, name, d, w3, cmd, w2))
  {
    hide Route, Dispatch, Blank, Delims, ValidName;
    var rest := [d] + (w3 + cmd);
    var s := "/" + (ds + (name + rest));
    assert s[1..] == ds + (name + rest) && rest[1..] == w3 + cmd;
    assert s[|s| - 1] == rest[|rest| - 1];
    assert rest[|rest| - 1] == if cmd == "" then d else cmd[|cmd| - 1];
    DispatchOfTrimmed(w1, s, w2);
    NameIsRead(ds, name, rest);
    SkipBlank(w3, cmd);
    if cmd != "" { TrimmedAlready(cmd); }
  }

  lemma LocalMeans(w1: string, cmd: string, w2: string)
    requires Blank(w1) && Blank(w2) && ValidCommand(cmd) && cmd[0] != '/' && cmd[0] != '#'
    ensures Dispatch(w1 + (cmd + w2)) == Exec(cmd)
  {
    DispatchOfTrimmed(w1, cmd, w2);
    hide Dispatch, Route;
  }

  lemma SkippedMeans(w1: string, rest: string)
    requires Blank(w1) && (rest == "" || rest[0] == '#')
    ensures Dispatch(w1 + rest) == Skip
  {
    SkipBlank(w1, rest);
    hide TrimRight, Route;
  }

  /** The command loop makes of every line of a given shape what the shape means. */
  lemma ShapeMeans(s: Shape)
    requires IsShape(s)
    ensures Dispatch(Text(s)) == Meaning(s)
  {
    hide Dispatch, Blank, Delims, ValidName, ValidCommand;
    match s
    case Empty(w) =>
      SkippedMeans(w, "");
      assert w + "" == w;
    case Comment(w1, text) => SkippedMeans(w1, "#" + text);
    case Local(w1, cmd, w2) => LocalMeans(w1, cmd, w2);
    case Question(w1, ds, text) => QuestionMeans(w1, ds, text);
    case NameOnly(w1, ds, name, w2) => NameOnlyMeans(w1, ds, name, w2);
    case Directed(w1, ds, name, d, w3, cmd, w2) => DirectedMeans(w1, ds, name, d, w3, cmd, w2);
  }

  // ---- Every line has a shape ----

  lemma {:induction false} SplitBlank(s: string) returns (w: string, rest: string)
    ensures s == w + rest && Blank(w) && (rest == "" || !White(rest[0]))
  {
    if s != "" && White(s[0]) {
      w, rest := SplitBlank(s[1..]);
      w := [s[0]] + w;
    } else {
      w, rest := "", s;
    }
  }

  lemma {:induction false} SplitDelims(s: string) returns (ds: string, rest: string)
    ensures s == ds + rest && Delims(ds) && (rest == "" || !Delim(rest[0]))
  {
    if s != "" && Delim(s[0]) {
      ds, rest := SplitDelims(s[1..]);
      ds := [s[0]] + ds;
    } else {
      ds, rest := "", s;
    }
  }

  lemma {:induction false} SplitName(s: string) returns (name: string, rest: string)
    ensures s == name + rest && (forall k | 0 <= k < |name| :: !Delim(name[k])) && (rest == "" || Delim(rest[0]))
    ensures s != "" && !Delim(s[0]) ==> name != "" && name[0] == s[0]
  {
    if s != "" && !Delim(s[0]) {
      name, rest := SplitName(s[1..]);
      name := [s[0]] + name;
    } else {
      name, rest := "", s;
    }
  }

  lemma {:induction false} SplitEnd(s: string) returns (front: string, w: string)
    ensures s == front + w && Blank(w) && (front == "" || !White(front[|front| - 1]))
    ensures s != "" && !White(s[0]) ==> front != "" && front[0] == s[0]
  {
    if s != "" && White(s[|s| - 1]) {
      front, w := SplitEnd(s[..|s| - 1]);
      w := w + [s[|s| - 1]];
    } else {
      front, w := s, "";
    }
  }

  /** What follows the name of a child, up to the blanks at the end. */
  lemma ChildShape(w1: string, ds: string, name: string, rest: string) returns (s: Shape)
    requires Blank(w1) && Delims(ds) && ValidName(name) && (rest == "" || Delim(rest[0]))
    ensures IsShape(s) && Text(s) == w1 + ("/" + (ds + (name + rest)))
  {
    hide Blank, Delims, ValidName, ValidCommand;
    if rest == "" {
      s := NameOnly(w1, ds, name, "");
      assert Blank("") by { NoBlanks(); }
      assert "/" + (ds + name) + "" == "/" + (ds + (name + ""));
    } else {
      var d := rest[0];
      var front, w2 := SplitEnd(rest[1..]);
      var w3, cmd := SplitBlank(front);
      NoBlanks();
      if cmd == "" {
        BlankFront(w3, front, cmd);
        if d == '/' {
          s := Directed(w1, ds, name, d, "", "", w2);
          assert rest == [d] + ("" + "") + w2;
          assert "/" + (ds + (name + rest)) == "/" + (ds + (name + ([d] + ("" + "")))) + w2;
        } else {
          s := NameOnly(w1, ds, name, rest);
          AllBlank(rest, w2);
          assert "/" + (ds + (name + rest)) == "/" + (ds + name) + rest;
        }
      } else {
        s := Directed(w1, ds, name, d, w3, cmd, w2);
        CommandAtEnd(front, w3, cmd);
        assert rest == [d] + (w3 + cmd) + w2;
        assert "/" + (ds + (name + rest)) == "/" + (ds + (name + ([d] + (w3 + cmd)))) + w2;
      }
    }
  }

  lemma NoBlanks()
    ensures Blank("") && Delims("")
  {
  }

  lemma BlankFront(w3: string, front: string, cmd: string)
    requires Blank(w3) && front == w3 + cmd && cmd == "" && (front == "" || !White(front[|front| - 1]))
    ensures front == ""
  {
    assert front == w3;
  }

  lemma AllBlank(rest: string, w2: string)
    requires rest != "" && Delim(rest[0]) && rest[0] != '/' && rest[1..] == w2 && Blank(w2)
    ensures Blank(rest)
  {
    forall k | 0 <= k < |rest|
      ensures White(rest[k])
    {
      if k > 0 { assert rest[k] == w2[k - 1]; }
    }
  }

  lemma CommandAtEnd(front: string, w3: string, cmd: string)
    requires front == w3 + cmd && cmd != "" && !White(cmd[0]) && front != "" && !White(front[|front| - 1])
    ensures ValidCommand(cmd)
  {
    assert front[|front| - 1] == cmd[|cmd| - 1];
  }

  /** Every line has a shape, so the six kinds are all there are, and each is recognised exactly. */
  lemma ShapeOf(line: string) returns (s: Shape)
    ensures IsShape(s) && Text(s) == line && Dispatch(line) == Meaning(s)
  {
    hide Blank, Delims, ValidName, ValidCommand, Dispatch;
    var w1, rest := SplitBlank(line);
    if rest == "" {
      s := Empty(w1);
      assert w1 + rest == w1;
    } else if rest[0] == '#' {
      s := Comment(w1, rest[1..]);
      assert rest == "#" + rest[1..];
    } else if rest[0] == '/' {
      assert rest == "/" + rest[1..];
      var ds, tail := SplitDelims(rest[1..]);
      if tail == "" || tail[0] == '?' {
        s := Question(w1, ds, tail);
      } else {
        var name, after := SplitName(tail);
        assert ValidName(name) by { NameIsValid(name, tail); }
        s := ChildShape(w1, ds, name, after);
      }
    } else {
      var cmd, w2 := SplitEnd(rest);
      s := Local(w1, cmd, w2);
      CommandAtEnd(cmd, "", cmd);
    }
    ShapeMeans(s);
  }

  lemma NameIsValid(name: string, tail: string)
    requires name != "" && tail != "" && name[0] == tail[0] && tail[0] != '?' && forall k | 0 <= k < |name| :: !Delim(name[k])
    ensures ValidName(name)
  {
  }

  /** A line executes a command of this process if and only if it is that command between blanks. */
  lemma ExecutesExactly(line: string, cmd: string)
    ensures Dispatch(line) == Exec(cmd) <==> exists w1, w2 :: IsShape(Local(w1, cmd, w2)) && line == Text(Local(w1, cmd, w2))
  {
    hide Dispatch, IsShape, Text;
    var s := ShapeOf(line);
    forall w1, w2 | IsShape(Local(w1, cmd, w2)) && line == Text(Local(w1, cmd, w2))
      ensures Dispatch(line) == Exec(cmd)
    {
      ShapeMeans(Local(w1, cmd, w2));
    }
    if s.Local? && s.cmd == cmd {
      assert s == Local(s.w1, cmd, s.w2);
    }
  }
}
