/** A command pipe as a stream of bytes: whole lines go in, and reads of limited length come out. */
module Pipe {
  import opened Routing

  /** The successive reads of what is in a pipe. */
  function Reads(bytes: string): seq<string>
    decreases |bytes|
  {
    if bytes == "" then [] else [ReadLine(bytes).0] + Reads(ReadLine(bytes).1)
  }

  /** The bytes of lines written one after another. */
  function Stream(lines: seq<string>): string {
    if lines == [] then "" else Stream(lines[..|lines| - 1]) + (lines[|lines| - 1] + "\n")
  }

  /** A pipe holds whole lines, or the rest of one and whole lines after it. */
  predicate Ended(bytes: string) {
    bytes == "" || bytes[|bytes| - 1] == '\n'
  }

  predicate Short(line: string) { |line| < READ_LIMIT }

  predicate AllShort(lines: seq<string>) {
    forall l | l in lines :: Short(l)
  }

  predicate AllOneLine(lines: seq<string>) {
    forall l | l in lines :: OneLine(l)
  }

  lemma {:induction false} LineEndAppend(a: string, b: string)
    requires LineEnd(a) < |a|
    ensures LineEnd(a + b) == LineEnd(a)
  {
    if a[0] != '\n' {
      LineEndAppend(a[1..], b);
      assert (a + b)[1..] == a[1..] + b;
    }
  }

  /** What is written later does not change the next read of a pipe that is not empty. */
  lemma ReadLineAppend(a: string, b: string)
    requires a != "" && Ended(a)
    ensures ReadLine(a + b) == (ReadLine(a).0, ReadLine(a).1 + b) && Ended(ReadLine(a).1)
  {
    LineEndAppend(a, b);
    var n := LineEnd(a);
    hide LineEnd;
    if n < READ_LIMIT {
      assert (a + b)[..n] == a[..n] && (a + b)[n + 1..] == a[n + 1..] + b;
    } else {
      assert (a + b)[..READ_LIMIT] == a[..READ_LIMIT] && (a + b)[READ_LIMIT..] == a[READ_LIMIT..] + b;
    }
  }

  lemma {:induction false} ReadsAppend(a: string, b: string)
    requires Ended(a)
    ensures Reads(a + b) == Reads(a) + Reads(b)
    decreases |a|
  {
    hide ReadLine, Ended;
    if a == "" {
      assert a + b == b;
    } else {
      ReadLineAppend(a, b);
      ReadsAppend(ReadLine(a).1, b);
    }
  }

  lemma ReadsAppendLine(a: string, line: string)
    requires Ended(a)
    ensures Reads(a + (line + "\n")) == Reads(a) + Reads(line + "\n") && Ended(a + (line + "\n"))
  {
    ReadsAppend(a, line + "\n");
  }

  lemma {:induction false} StreamEnds(lines: seq<string>)
    ensures Ended(Stream(lines))
  {
  }

  lemma StreamAppend(lines: seq<string>, line: string)
    ensures Reads(Stream(lines + [line])) == Reads(Stream(lines)) + Reads(line + "\n")
  {
    assert (lines + [line])[..|lines|] == lines;
    StreamEnds(lines);
    ReadsAppendLine(Stream(lines), line);
  }

  /** A line is one read if and only if it is short; a longer one is at least two. */
  lemma ReadsOfLine(line: string)
    requires OneLine(line)
    ensures if Short(line) then Reads(line + "\n") == [line] else |Reads(line + "\n")| >= 2
  {
    hide ReadLine;
    assert line + "\n" + "" == line + "\n";
    if Short(line) {
      ReadBack(line, "");
    } else {
      LongLinesSplit(line, "");
    }
  }

  /** The lines that were written are the commands that are read if and only if all of them are short. */
  lemma {:induction false} ReadsOfStream(lines: seq<string>)
    requires AllOneLine(lines)
    ensures AllShort(lines) <==> Reads(Stream(lines)) == lines
    ensures |lines| <= |Reads(Stream(lines))| && (AllShort(lines) <==> |Reads(Stream(lines))| == |lines|)
  {
    hide Reads, Stream;
    if lines == [] {
      assert Reads(Stream([])) == [] by { NothingToRead(); }
    } else {
      var init, last := lines[..|lines| - 1], lines[|lines| - 1];
      assert lines == init + [last];
      ReadsOfStream(init);
      StreamAppend(init, last);
      ReadsOfLine(last);
    }
  }

  lemma NothingToRead()
    ensures Reads(Stream([])) == [] && Reads("") == [] && Ended("") && AllOneLine([]) && AllShort([])
  {
  }

  lemma ReadIsOneLine(bytes: string)
    ensures OneLine(ReadLine(bytes).0) && |ReadLine(bytes).0| <= READ_LIMIT
  {
  }

  /** A line that is one command wherever it is forwarded to. */
  predicate Fits(line: string) {
    OneLine(line) && (Dispatch(line).Forward? ==> Short(Dispatch(line).line))
  }

  /** Whatever is read with a limit fits: every line of a script, and everything that a child reads. */
  lemma ReadLinesFit(bytes: string)
    ensures Fits(ReadLine(bytes).0)
  {
    var line := ReadLine(bytes).0;
    ReadIsOneLine(bytes);
    hide ReadLine, Dispatch, OneLine;
    if Dispatch(line).Forward? {
      ForwardShrinks(line);
    }
  }

  lemma ForwardIsOneLine(line: string)
    requires OneLine(line) && Dispatch(line).Forward?
    ensures OneLine(Dispatch(line).line)
  {
    ForwardShrinks(line);
  }

  lemma FirstRead(bytes: string)
    requires bytes != ""
    ensures Reads(bytes) == [ReadLine(bytes).0] + Reads(ReadLine(bytes).1)
  {
  }

  /** A read moves the first command of the pipe to those taken. */
  lemma ReadTakes(taken: seq<string>, inbox: string)
    requires inbox != "" && Ended(inbox)
    ensures var (line, rest) := ReadLine(inbox);
      && taken + Reads(inbox) == taken + [line] + Reads(rest) && |Reads(inbox)| == 1 + |Reads(rest)|
      && Ended(rest) && Fits(line) && OneLine(line)
  {
    hide Reads, Fits, Ended, ReadLine, OneLine;
    var (line, rest) := ReadLine(inbox);
    FirstRead(inbox);
    ReadLineAppend(inbox, "");
    ReadLinesFit(inbox);
    ReadIsOneLine(inbox);
    assert taken + ([line] + Reads(rest)) == taken + [line] + Reads(rest);
  }

  /** A line written keeps what arrives equal to what was written. */
  lemma WriteArrives(taken: seq<string>, inbox: string, sent: seq<string>, line: string)
    requires Ended(inbox) && taken + Reads(inbox) == Reads(Stream(sent)) && OneLine(line) && AllOneLine(sent)
    ensures var inbox', sent' := inbox + (line + "\n"), sent + [line];
      && Ended(inbox') && taken + Reads(inbox') == Reads(Stream(sent')) && AllOneLine(sent')
      && |Reads(inbox')| >= |Reads(inbox)| + (if Short(line) then 1 else 2)
      && (Short(line) ==> |Reads(inbox')| == |Reads(inbox)| + 1 && (AllShort(sent) ==> AllShort(sent')))
  {
    hide Reads, Stream, Ended, OneLine, Short;
    ReadsAppendLine(inbox, line);
    StreamAppend(sent, line);
    ReadsOfLine(line);
    var more := Reads(line + "\n");
    assert taken + (Reads(inbox) + more) == (taken + Reads(inbox)) + more;
  }
}
