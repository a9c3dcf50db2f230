/** The command loop's work on a line in place: a character array with a NUL, cursors into it, and characters overwritten. */
module LineBuffer {
  import opened Routing
  import opened Pipe
  import opened LineShapes

  function StrLen(s: seq<char>, i: nat): (n: nat)
    requires i <= |s|
    ensures i + n <= |s| && (i + n < |s| ==> s[i + n] == NUL)
    ensures forall k | i <= k < i + n :: s[k] != NUL
    decreases |s| - i
  {
    if i == |s| || s[i] == NUL then 0 else 1 + StrLen(s, i + 1)
  }

  /** The C string at `i`. */
  function CStr(s: seq<char>, i: nat): string
    requires i <= |s|
  {
    s[i..i + StrLen(s, i)]
  }

  ghost predicate Terminated(s: seq<char>, i: nat) {
    i <= |s| && i + StrLen(s, i) < |s|
  }

  lemma {:induction false} StrLenIs(s: seq<char>, i: nat, e: nat)
    requires i <= e < |s| && s[e] == NUL && forall k | i <= k < e :: s[k] != NUL
    ensures StrLen(s, i) == e - i
    decreases e - i
  {
  }

  /** A character at a terminated position is the terminator or the first of the string. */
  lemma CStrHead(s: seq<char>, i: nat)
    requires Terminated(s, i)
    ensures i < |s| && (s[i] == NUL <==> CStr(s, i) == "")
    ensures s[i] != NUL ==> CStr(s, i) != "" && CStr(s, i)[0] == s[i]
    ensures s[i] != NUL ==> Terminated(s, i + 1) && CStr(s, i + 1) == CStr(s, i)[1..]
  {
  }

  lemma CStrDrop(s: seq<char>, i: nat, k: nat)
    requires Terminated(s, i) && k <= |CStr(s, i)|
    ensures CStr(s, i + k) == CStr(s, i)[k..] && Terminated(s, i + k)
  {
  }

  /** strspn() with the whitespace characters. */
  method SkipWhiteFrom(buf: array<char>, i: nat) returns (j: nat)
    requires Terminated(buf[..], i)
    ensures i <= j && Terminated(buf[..], j) && CStr(buf[..], j) == SkipWhite(CStr(buf[..], i))
  {
    hide StrLen, CStr, Terminated;
    j := i;
    CStrHead(buf[..], j);
    while White(buf[j])
      invariant i <= j < buf.Length && Terminated(buf[..], j)
      invariant SkipWhite(CStr(buf[..], j)) == SkipWhite(CStr(buf[..], i))
      decreases buf.Length - j
    {
      CStrHead(buf[..], j);
      j := j + 1;
      CStrHead(buf[..], j);
    }
    CStrHead(buf[..], j);
  }

  /** strspn() with the characters that end a child's name. */
  method SkipDelimsFrom(buf: array<char>, i: nat) returns (j: nat)
    requires Terminated(buf[..], i)
    ensures i <= j && Terminated(buf[..], j) && CStr(buf[..], j) == SkipDelims(CStr(buf[..], i))
  {
    hide StrLen, CStr, Terminated;
    j := i;
    CStrHead(buf[..], j);
    while Delim(buf[j])
      invariant i <= j < buf.Length && Terminated(buf[..], j)
      invariant SkipDelims(CStr(buf[..], j)) == SkipDelims(CStr(buf[..], i))
      decreases buf.Length - j
    {
      CStrHead(buf[..], j);
      j := j + 1;
      CStrHead(buf[..], j);
    }
    CStrHead(buf[..], j);
  }

  /** strcspn() with the characters that end a child's name. */
  method NameEnd(buf: array<char>, i: nat) returns (e: nat)
    requires Terminated(buf[..], i)
    ensures e == i + NameLen(CStr(buf[..], i))
  {
    hide StrLen, CStr, Terminated;
    e := i;
    CStrHead(buf[..], e);
    while buf[e] != NUL && !Delim(buf[e])
      invariant i <= e < buf.Length && Terminated(buf[..], e)
      invariant e + NameLen(CStr(buf[..], e)) == i + NameLen(CStr(buf[..], i))
      decreases buf.Length - e
    {
      CStrHead(buf[..], e);
      e := e + 1;
      CStrHead(buf[..], e);
    }
    CStrHead(buf[..], e);
  }

  /** What became of a line: `Written` is the bytes put into the named child's command pipe. */
  datatype Sent = Skipped | Run(cmd: string) | Listed | RanPast | NoSuchChild(name: string) | Written(child: string, bytes: string)

  function Result(r: Routed, children: set<string>): Sent {
    match r
    case Skip => Skipped
    case Exec(c) => Run(c)
    case Listing => Listed
    case Overrun => RanPast
    case Forward(n, line) => if n in children then Written(n, line + "\n") else NoSuchChild(n)
  }

  /** What becomes of a line of each kind. A line for a child is written as the pipe to it expects lines. */
  lemma LineMeans(s: Shape, children: set<string>)
    requires IsShape(s)
    ensures Result(Dispatch(LineShapes.Text(s)), children) == match s
      case Empty(_) => Skipped
      case Comment(_, _) => Skipped
      case Local(_, cmd, _) => Run(cmd)
      case Question(_, _, _) => Listed
      case NameOnly(_, _, _, _) => RanPast
      case Directed(_, _, name, d, _, cmd, _) =>
        if name !in children then NoSuchChild(name) else Written(name, Stream([if d == '/' then "/" + cmd else cmd]))
  {
    ShapeMeans(s);
    hide Dispatch, IsShape, LineShapes.Text;
    if s.Directed? {
      OneLineStream(if s.d == '/' then "/" + s.cmd else s.cmd);
    }
  }

  lemma OneLineStream(line: string)
    ensures Stream([line]) == line + "\n"
  {
    assert [line][..0] == [] && Stream([]) == "";
  }

  /** The buffer when the child's name has been cut off: the name is a string, and so is what follows. */
  lemma CutName(s: seq<char>, i: nat, e: nat)
    requires Terminated(s, i) && i <= e < i + |CStr(s, i)|
    ensures e < |s| && Terminated(s[e := NUL], i) && CStr(s[e := NUL], i) == CStr(s, i)[..e - i]
    ensures Terminated(s[e := NUL], e + 1) && CStr(s[e := NUL], e + 1) == CStr(s, i)[e - i + 1..]
    ensures s[e] != NUL && s[e] == CStr(s, i)[e - i]
  {
    var t, n := s[e := NUL], StrLen(s, i);
    StrLenIs(t, i, e);
    StrLenIs(t, e + 1, i + n);
    assert t[i..e] == s[i..i + n][..e - i];
    assert t[e + 1..i + n] == s[i..i + n][e - i + 1..];
  }

  /** The '/' put back just before the rest of the line. */
  lemma RestoreSlash(s: seq<char>, p: nat)
    requires 0 < p && Terminated(s, p)
    ensures p < |s| && Terminated(s[p - 1 := '/'], p - 1) && CStr(s[p - 1 := '/'], p - 1) == "/" + CStr(s, p)
  {
    StrLenIs(s[p - 1 := '/'], p - 1, p + StrLen(s, p));
  }

  /** The bytes written: the string at `p` with its terminator overwritten by a newline. */
  lemma EndLine(s: seq<char>, p: nat)
    requires Terminated(s, p)
    ensures var e := p + |CStr(s, p)|;
      e < |s| && s[e := '\n'][p..e + 1] == CStr(s, p) + "\n"
  {
  }

  method ChildSend(buf: array<char>, start: nat, children: set<string>) returns (r: Sent)
    requires Terminated(buf[..], start)
    modifies buf
    ensures r == Result(Route(CStr(old(buf[..]), start)), children)
  {
    hide StrLen, CStr, Terminated, SkipWhite, SkipDelims, NameLen;
    var name := SkipDelimsFrom(buf, start);
    CStrHead(buf[..], name);
    if buf[name] == NUL || buf[name] == '?' {
      return Listed;
    }
    ghost var s := buf[..];
    var p := NameEnd(buf, name);
    CStrDrop(s, name, p - name);
    CStrHead(s, p);
    if buf[p] == NUL {
      return RanPast;
    }
    CutName(s, name, p);
    var slash := buf[p] == '/';
    buf[p] := NUL;
    assert buf[..] == s[p := NUL];
    p := SkipWhiteFrom(buf, p + 1);
    var child := CStr(buf[..], name);
    if child !in children {
      return NoSuchChild(child);
    }
    ghost var t := buf[..];
    if slash {
      RestoreSlash(t, p);
      p := p - 1;
      buf[p] := '/';
      assert buf[..] == t[p := '/'];
    }
    EndLine(buf[..], p);
    ghost var u := buf[..];
    var end := p + |CStr(buf[..], p)|;
    buf[end] := '\n';
    assert buf[..] == u[end := '\n'];
    r := Written(child, buf[p..end + 1]);
  }

  /** One pass of the command loop over the line in `buf`. */
  method ProcessLine(buf: array<char>, children: set<string>) returns (r: Sent)
    requires Terminated(buf[..], 0)
    modifies buf
    ensures r == Result(Dispatch(CStr(old(buf[..]), 0)), children)
  {
    hide StrLen, CStr, Terminated, SkipWhite, Route;
    var p := SkipWhiteFrom(buf, 0);
    CStrHead(buf[..], p);
    if buf[p] == NUL || buf[p] == '#' {
      return Skipped;
    }
    ghost var s := CStr(buf[..], p);
    var len := |CStr(buf[..], p)|;
    LastChar(buf[..], p);
    while White(buf[p + len - 1])
      invariant 0 < len && p + len <= buf.Length && Terminated(buf[..], p) && len == |CStr(buf[..], p)|
      invariant buf[p + len - 1] == CStr(buf[..], p)[len - 1]
      invariant CStr(buf[..], p)[0] == s[0] && TrimRight(CStr(buf[..], p)) == TrimRight(s)
      decreases len
    {
      ghost var t := buf[..];
      len := len - 1;
      CutName(t, p, p + len);
      buf[p + len] := NUL;
      assert buf[..] == t[p + len := NUL];
      LastChar(buf[..], p);
    }
    CStrHead(buf[..], p);
    if buf[p] == '/' {
      r := ChildSend(buf, p + 1, children);
    } else {
      r := Run(CStr(buf[..], p));
    }
  }

  lemma LastChar(s: seq<char>, i: nat)
    requires Terminated(s, i)
    ensures var n := |CStr(s, i)|;
      i + n < |s| && (0 < n ==> s[i + n - 1] == CStr(s, i)[n - 1] && s[i] == CStr(s, i)[0])
  {
  }
}
