/**
 * The tree of processes as a transition system. A process is the parent of others; between a parent and a child there is
 * a command pipe, which is a stream of bytes, and a response pipe, holding acknowledgements.
 */
module Protocol {
  import opened Routing
  import opened Pipe

  /** `Failing` is on its way out and owes a response, `Quitting` is on its way out and owes none. */
  datatype Status = Starting | Reading | Running(line: string) | Waiting(child: nat) | Responding | Failing | Quitting | Dead

  /**
   * `inbox` and `acks` are what is in the pipes from and to the parent. `sent`, `taken` and `acked` are history: the lines
   * that the parent wrote, the commands that the process read, and how often it responded.
   */
  datatype Process = Process(parent: nat, name: string, status: Status, inbox: string, acks: nat,
                             sent: seq<string>, taken: seq<string>, acked: nat, reaped: bool)

  /** Processes by id, in order of spawning; 0 is the root. */
  type State = seq<Process>

  const INIT: State := [Process(0, "", Reading, "", 0, [], [], 0, false)]

  predicate Alive(s: State, p: nat) { p < |s| && !s[p].status.Dead? }

  /** From taking a command, or being forked, to responding. */
  predicate Busy(st: Status) { st.Starting? || st.Running? || st.Waiting? || st.Responding? || st.Failing? }

  predicate Executing(st: Status) { Busy(st) && !st.Waiting? }

  predicate Listed(s: State, p: nat, c: nat) { 0 < c < |s| && s[c].parent == p && !s[c].reaped }

  /** The listed child with this name, or 0. */
  function ChildNamed(s: State, p: nat, name: string, c: nat): (r: nat)
    requires c <= |s|
    ensures r != 0 ==> c <= r && Listed(s, p, r) && s[r].name == name
    ensures r == 0 ==> forall d | c <= d < |s| && Listed(s, p, d) :: s[d].name != name
    decreases |s| - c
  {
    if c == |s| then 0
    else if Listed(s, p, c) && s[c].name == name then c
    else ChildNamed(s, p, name, c + 1)
  }

  /** `q` is `a` or a descendant of it. */
  predicate Under(s: State, q: nat, a: nat)
    decreases q
  {
    q == a || (0 < q < |s| && s[q].parent < q && Under(s, s[q].parent, a))
  }

  /**
   * Who keeps the parent's ends of `c`'s pipes open, to write commands and to read responses: its parent, and what the parent
   * forked after `c`.
   */
  ghost predicate HoldsParentEnds(s: State, q: nat, c: nat)
    requires c < |s|
  {
    Alive(s, q) && (q == s[c].parent || exists g :: c < g < |s| && s[g].parent == s[c].parent && Under(s, q, g))
  }

  /** Who keeps the write end of `c`'s response pipe open: `c` and its descendants. */
  ghost predicate HoldsResponsePipe(s: State, q: nat, c: nat) {
    Alive(s, q) && Under(s, q, c)
  }

  datatype Step =
    | ReadInput(line: string)         // the root reads a line, of any length if it is interactive
    | EndOfInput                      // the root reads end of file
    | Read(p: nat)                    // a child reads once from its command pipe
    | Eof(p: nat)                     // a child reads end of file
    | Respond(p: nat)                 // "OK" to the parent, and back to reading
    | Local(p: nat)                   // a line that needs no other process
    | Fail(p: nat)                    // a command error that is fatal
    | Quit(p: nat)                    // responds and exits
    | Hangup(p: nat)                  // responds when nobody can read it, and is killed by SIGPIPE
    | Spawn(p: nat, name: string)
    | Send(p: nat)                    // forwards a line to a child and waits for it
    | BrokenPipe(p: nat)              // forwards a line to a child that has died
    | TakeAck(p: nat)
    | TakeEof(p: nat)                 // end of file on the response pipe
    | Exit(p: nat)
    | Reap(p: nat)                    // p's parent takes it off its list

  predicate FromOutside(step: Step) { step.ReadInput? || step.EndOfInput? }

  predicate IsRunning(s: State, p: nat) { p < |s| && s[p].status.Running? }

  /** The child that a running process is to forward its line to, or 0. */
  function Target(s: State, p: nat): nat
    requires IsRunning(s, p)
  {
    match Dispatch(s[p].status.line)
    case Forward(name, _) => ChildNamed(s, p, name, 0)
    case _ => 0
  }

  /** The root responds to nobody; a child's response needs someone who could read it. */
  ghost predicate HasReader(s: State, p: nat)
    requires p < |s|
  {
    p == 0 || exists q :: HoldsParentEnds(s, q, p)
  }

  ghost predicate Enabled(s: State, step: Step) {
    match step
    case ReadInput(line) => |s| > 0 && s[0].status.Reading? && OneLine(line) && NUL !in line
    case EndOfInput => |s| > 0 && s[0].status.Reading?
    case Read(p) => 0 < p < |s| && s[p].status.Reading? && s[p].inbox != ""
    case Eof(p) => 0 < p < |s| && s[p].status.Reading? && s[p].inbox == "" && forall q :: !HoldsParentEnds(s, q, p)
    case Respond(p) => p < |s| && (s[p].status.Starting? || s[p].status.Responding?) && HasReader(s, p)
    case Local(p) => IsRunning(s, p) && Target(s, p) == 0
    case Fail(p) => IsRunning(s, p) && Dispatch(s[p].status.line).Exec?
    case Quit(p) => IsRunning(s, p) && Dispatch(s[p].status.line).Exec? && HasReader(s, p)
    case Hangup(p) =>
      && p < |s| && !HasReader(s, p)
      && (s[p].status.Starting? || s[p].status.Responding? || (IsRunning(s, p) && Dispatch(s[p].status.line).Exec?))
    case Spawn(p, name) => IsRunning(s, p) && Dispatch(s[p].status.line).Exec? && ChildNamed(s, p, name, 0) == 0
    case Send(p) => IsRunning(s, p) && Target(s, p) != 0 && Alive(s, Target(s, p))
    case BrokenPipe(p) => IsRunning(s, p) && Target(s, p) != 0 && !Alive(s, Target(s, p))
    case TakeAck(p) => p < |s| && s[p].status.Waiting? && s[p].status.child < |s| && s[s[p].status.child].acks > 0
    case TakeEof(p) =>
      && p < |s| && s[p].status.Waiting? && s[p].status.child < |s| && s[s[p].status.child].acks == 0
      && forall q :: !HoldsResponsePipe(s, q, s[p].status.child)
    case Exit(p) => p < |s| && (s[p].status.Failing? || s[p].status.Quitting?)
    case Reap(c) => 0 < c < |s| && s[c].parent < |s| && s[c].status.Dead? && !s[c].reaped
                    && Alive(s, s[c].parent) && !s[s[c].parent].status.Waiting?
  }

  function With(s: State, p: nat, st: Status): State
    requires p < |s|
  {
    s[p := s[p].(status := st)]
  }

  function Responded(s: State, p: nat, st: Status): State
    requires p < |s|
  {
    if p == 0 then With(s, p, st)
    else s[p := s[p].(status := st, acks := s[p].acks + 1, acked := s[p].acked + 1)]
  }

  function Died(s: State, p: nat): State
    requires p < |s|
  {
    s[p := s[p].(status := Dead, inbox := "")]
  }

  ghost function Next(s: State, step: Step): State
    requires Enabled(s, step)
  {
    match step
    case ReadInput(line) => With(s, 0, Running(line))
    case EndOfInput => With(s, 0, Quitting)
    case Read(p) =>
      var (line, rest) := ReadLine(s[p].inbox);
      s[p := s[p].(status := Running(line), inbox := rest, taken := s[p].taken + [line])]
    case Eof(p) => With(s, p, Quitting)
    case Respond(p) => Responded(s, p, Reading)
    case Local(p) => With(s, p, Responding)
    case Fail(p) => With(s, p, Failing)
    case Quit(p) => Responded(s, p, Quitting)
    case Hangup(p) => Died(s, p)
    case Spawn(p, name) => With(s, p, Waiting(|s|)) + [Process(p, name, Starting, "", 0, [], [], 0, false)]
    case Send(p) =>
      var c, line := Target(s, p), Dispatch(s[p].status.line).line;
      var t := s[c := s[c].(inbox := s[c].inbox + (line + "\n"), sent := s[c].sent + [line])];
      With(t, p, Waiting(c))
    case BrokenPipe(p) => Died(s, p)
    case TakeAck(p) =>
      var c := s[p].status.child;
      With(s[c := s[c].(acks := s[c].acks - 1)], p, Responding)
    case TakeEof(p) => With(s, p, Responding)
    case Exit(p) => Died(s, p)
    case Reap(c) => s[c := s[c].(reaped := true)]
  }

  // ---- The invariant ----

  predicate IsWaitingOn(s: State, p: nat, c: nat) {
    p < |s| && s[p].status == Waiting(c)
  }

  function One(b: bool): nat { if b then 1 else 0 }

  /** Commands still to be read by `k`, `k` itself at work, and responses still to be taken from it. */
  function Pending(k: Process): nat {
    |Reads(k.inbox)| + One(Busy(k.status)) + k.acks
  }

  /** What holds of process `c` and its parent; `fit` says that every input line of the run fits. */
  ghost predicate Edge(s: State, c: nat, fit: bool)
    requires 0 < c < |s|
  {
    var k, waited := s[c], One(IsWaitingOn(s, s[c].parent, c));
    && k.parent < c
    && (k.reaped ==> k.status.Dead? && waited == 0)
    && AllOneLine(k.sent) && (fit ==> AllShort(k.sent))
    && if k.status.Dead? then
         k.inbox == "" && k.taken <= Reads(Stream(k.sent)) && k.acked <= |k.taken| + 1 && (fit ==> k.acks <= waited)
       else
         // every byte arrives, once and in order
         && Ended(k.inbox) && k.taken + Reads(k.inbox) == Reads(Stream(k.sent))
         // one response for having been spawned and one for every command
         && k.acked + One(Busy(k.status)) == |k.taken| + 1
         // a parent that waits has something to wait for
         && waited <= Pending(k)
         // lock step
         && (fit ==> Pending(k) == waited)
  }

  ghost predicate Inv(s: State, fit: bool) {
    && |s| > 0 && s[0].parent == 0 && s[0].inbox == "" && s[0].acks == 0 && !s[0].status.Starting? && !s[0].reaped
    && (forall c | 0 < c < |s| :: Edge(s, c, fit))
    && (forall p | 0 <= p < |s| && s[p].status.Waiting? :: Listed(s, p, s[p].status.child))
    && (forall c, d | 0 < c < d < |s| && Listed(s, s[d].parent, c) && Listed(s, s[d].parent, d) :: s[c].name != s[d].name)
    && (forall p | 0 <= p < |s| && s[p].status.Running? :: if fit then Fits(s[p].status.line) else OneLine(s[p].status.line))
  }

  /** The root's line is one command wherever it goes; a line of a script always is. */
  predicate InputFits(step: Step) {
    step.ReadInput? ==> Fits(step.line)
  }

  lemma InitInv(fit: bool)
    ensures Inv(INIT, fit)
  {
  }

  /** Processes other than `p` and `c` are as they were. */
  ghost predicate SameBut(s: State, t: State, p: nat, c: nat) {
    |s| == |t| && forall i | 0 <= i < |s| && i != p && i != c :: t[i] == s[i]
  }

  predicate SameIdentity(a: Process, b: Process) {
    a.parent == b.parent && a.name == b.name && a.reaped == b.reaped
  }

  lemma EdgeFrame(s: State, t: State, c: nat, fit: bool)
    requires 0 < c < |s| <= |t| && t[c] == s[c]
    requires IsWaitingOn(t, s[c].parent, c) == IsWaitingOn(s, s[c].parent, c)
    ensures Edge(t, c, fit) == Edge(s, c, fit)
  {
  }

  predicate LineOk(p: Process, fit: bool) {
    p.status.Running? ==> if fit then Fits(p.status.line) else OneLine(p.status.line)
  }

  /** One process moves, and its children are not concerned. */
  lemma OneMoves(s: State, t: State, p: nat, fit: bool)
    requires Inv(s, fit) && p < |s| && SameBut(s, t, p, p) && SameIdentity(s[p], t[p]) && LineOk(t[p], fit)
    requires !s[p].status.Waiting? && !t[p].status.Waiting?
    requires p == 0 ==> t[p].inbox == "" && t[p].acks == 0 && !t[p].status.Starting?
    requires p > 0 ==> Edge(t, p, fit)
    ensures Inv(t, fit)
  {
    hide Fits, OneLine;
    forall c | 0 < c < |t|
      ensures Edge(t, c, fit)
    {
      if c != p { EdgeFrame(s, t, c, fit); }
    }
    hide Edge;
  }

  /** A process and the child it waits on, before or after, move together. */
  lemma TwoMove(s: State, t: State, p: nat, c: nat, fit: bool)
    requires Inv(s, fit) && p < c < |s| && SameBut(s, t, p, c) && SameIdentity(s[p], t[p]) && SameIdentity(s[c], t[c])
    requires Listed(s, p, c) && t[p] == s[p].(status := t[p].status) && t[c].status == s[c].status && LineOk(t[p], fit)
    requires !s[p].status.Waiting? || s[p].status == Waiting(c)
    requires !t[p].status.Waiting? || t[p].status == Waiting(c)
    requires Busy(s[p].status) && Busy(t[p].status) && !t[p].status.Starting?
    requires Edge(t, c, fit)
    ensures Inv(t, fit)
  {
    hide Fits, OneLine, Reads, Stream, AllOneLine, AllShort;
    forall d | 0 < d < |t|
      ensures Edge(t, d, fit)
    {
      if d == p {
        assert Edge(s, p, fit);
      } else if d != c {
        EdgeFrame(s, t, d, fit);
      }
    }
    hide Edge;
  }

  lemma SpawnKeepsInv(s: State, p: nat, name: string, fit: bool)
    requires Inv(s, fit) && Enabled(s, Spawn(p, name))
    ensures Inv(Next(s, Spawn(p, name)), fit)
  {
    hide Fits, OneLine, Dispatch, Reads, Stream, Ended, AllOneLine, AllShort;
    var t := Next(s, Spawn(p, name));
    NothingToRead();
    forall c | 0 < c < |t|
      ensures Edge(t, c, fit)
    {
      if c < |s| {
        assert Edge(s, c, fit);
        if c != p { EdgeFrame(s, t, c, fit); }
      }
    }
    hide Edge;
  }

  lemma ReapKeepsInv(s: State, c: nat, fit: bool)
    requires Inv(s, fit) && Enabled(s, Reap(c))
    ensures Inv(Next(s, Reap(c)), fit)
  {
    hide Fits, OneLine, Reads, Stream, Dispatch;
    var t := Next(s, Reap(c));
    forall d | 0 < d < |t|
      ensures Edge(t, d, fit)
    {
      assert Edge(s, d, fit);
    }
    hide Edge;
  }

  lemma InputKeepsInv(s: State, step: Step, fit: bool)
    requires Inv(s, fit) && Enabled(s, step) && (step.ReadInput? || step.EndOfInput?) && (fit ==> InputFits(step))
    ensures Inv(Next(s, step), fit)
  {
    OneMoves(s, Next(s, step), 0, fit);
  }

  lemma ReadKeepsInv(s: State, p: nat, fit: bool)
    requires Inv(s, fit) && Enabled(s, Read(p))
    ensures Inv(Next(s, Read(p)), fit)
  {
    hide Fits, OneLine, Reads, Stream, ReadLine, Dispatch, Ended, AllOneLine, AllShort;
    assert Edge(s, p, fit);
    ReadTakes(s[p].taken, s[p].inbox);
    OneMoves(s, Next(s, Read(p)), p, fit);
  }

  /** A process other than the root changes its status only, or responds. */
  lemma MoveKeepsInv(s: State, step: Step, p: nat, fit: bool)
    requires Inv(s, fit) && Enabled(s, step)
    requires step == Eof(p) || step == Respond(p) || step == Quit(p) || step == Hangup(p) || step == Local(p) || step == Fail(p)
      || step == BrokenPipe(p) || step == Exit(p)
    ensures Inv(Next(s, step), fit)
  {
    hide Fits, OneLine, Stream, ReadLine, Dispatch, HoldsParentEnds, HasReader;
    var t := Next(s, step);
    assert p > 0 ==> Edge(s, p, fit);
    NothingToRead();
    hide Reads;
    OneMoves(s, t, p, fit);
  }

  lemma SendKeepsInv(s: State, p: nat, fit: bool)
    requires Inv(s, fit) && Enabled(s, Send(p))
    ensures Inv(Next(s, Send(p)), fit)
  {
    hide Fits, OneLine, ReadLine, Dispatch, Reads, Stream, Ended, Short, AllShort, AllOneLine;
    var t, c, line := Next(s, Send(p)), Target(s, p), Dispatch(s[p].status.line).line;
    assert Edge(s, c, fit) && !s[c].status.Dead?;
    LineForwarded(s[p], fit);
    WriteArrives(s[c].taken, s[c].inbox, s[c].sent, line);
    TwoMove(s, t, p, c, fit);
  }

  lemma LineForwarded(p: Process, fit: bool)
    requires LineOk(p, fit) && p.status.Running? && Dispatch(p.status.line).Forward?
    ensures OneLine(Dispatch(p.status.line).line) && (fit ==> Short(Dispatch(p.status.line).line))
  {
    hide Dispatch, OneLine;
    ForwardIsOneLine(p.status.line);
  }

  lemma TakeKeepsInv(s: State, step: Step, fit: bool)
    requires Inv(s, fit) && Enabled(s, step) && (step.TakeAck? || step.TakeEof?)
    ensures Inv(Next(s, step), fit)
  {
    hide Fits, OneLine, ReadLine, Dispatch, Reads, Stream;
    var t := Next(s, step);
    var c := s[step.p].status.child;
    assert Edge(s, c, fit);
    assert step.TakeEof? ==> !HoldsResponsePipe(s, c, c);
    TwoMove(s, t, step.p, c, fit);
  }

  /** Every step keeps the invariant, and its lock-step part too if the root's lines fit. */
  lemma StepKeepsInv(s: State, step: Step, fit: bool)
    requires Inv(s, fit) && Enabled(s, step) && (fit ==> InputFits(step))
    ensures Inv(Next(s, step), fit)
  {
    hide Inv, Enabled, Next, InputFits;
    match step
    case ReadInput(_) => InputKeepsInv(s, step, fit);
    case EndOfInput => InputKeepsInv(s, step, fit);
    case Read(p) => ReadKeepsInv(s, p, fit);
    case Eof(p) => MoveKeepsInv(s, step, p, fit);
    case Respond(p) => MoveKeepsInv(s, step, p, fit);
    case Quit(p) => MoveKeepsInv(s, step, p, fit);
    case Hangup(p) => MoveKeepsInv(s, step, p, fit);
    case Local(p) => MoveKeepsInv(s, step, p, fit);
    case Fail(p) => MoveKeepsInv(s, step, p, fit);
    case Spawn(p, name) => SpawnKeepsInv(s, p, name, fit);
    case Send(p) => SendKeepsInv(s, p, fit);
    case BrokenPipe(p) => MoveKeepsInv(s, step, p, fit);
    case Exit(p) => MoveKeepsInv(s, step, p, fit);
    case TakeAck(_) => TakeKeepsInv(s, step, fit);
    case TakeEof(_) => TakeKeepsInv(s, step, fit);
    case Reap(c) => ReapKeepsInv(s, c, fit);
  }

  // ---- Runs ----

  ghost predicate Run(s: State, steps: seq<Step>, t: State)
    decreases |steps|
  {
    if steps == [] then s == t else Enabled(s, steps[0]) && Run(Next(s, steps[0]), steps[1..], t)
  }

  lemma {:induction false} RunsJoin(r: State, first: seq<Step>, s: State, second: seq<Step>, t: State)
    requires Run(r, first, s) && Run(s, second, t)
    ensures Run(r, first + second, t)
    decreases |first|
  {
    hide Enabled, Next;
    if first == [] {
      assert first + second == second;
    } else {
      RunsJoin(Next(r, first[0]), first[1..], s, second, t);
      assert (first + second)[1..] == first[1..] + second;
    }
  }

  predicate InputsFit(steps: seq<Step>) {
    forall step | step in steps :: InputFits(step)
  }

  lemma {:induction false} RunKeepsInv(s: State, steps: seq<Step>, t: State, fit: bool)
    requires Inv(s, fit) && Run(s, steps, t) && (fit ==> InputsFit(steps))
    ensures Inv(t, fit)
    decreases |steps|
  {
    hide Inv, Enabled, Next, InputFits;
    if steps != [] {
      StepKeepsInv(s, steps[0], fit);
      RunKeepsInv(Next(s, steps[0]), steps[1..], t, fit);
    }
  }

  /**
   * In every reachable state, whatever the input: the commands that a live child has read and those in its pipe are the
   * reads of the lines that its parent wrote, and it responded once for each. A dead one has lost the rest.
   */
  lemma EveryByteArrives(steps: seq<Step>, s: State, c: nat)
    requires Run(INIT, steps, s) && 0 < c < |s|
    ensures s[c].taken <= Reads(Stream(s[c].sent))
    ensures Alive(s, c) ==> s[c].taken + Reads(s[c].inbox) == Reads(Stream(s[c].sent))
    ensures Alive(s, c) ==> s[c].acked + One(Busy(s[c].status)) == |s[c].taken| + 1
    ensures IsWaitingOn(s, s[c].parent, c) && Alive(s, c) ==> Pending(s[c]) >= 1
  {
    InitInv(false);
    RunKeepsInv(INIT, steps, s, false);
    assert Edge(s, c, false);
  }

  /**
   * If the root's lines fit, in every reachable state and for every parent and live child: commands in the pipe, the child
   * at work, and responses in the pipe add up to 1 while the parent waits for that child, and to 0 otherwise; and the
   * commands read are the lines written.
   */
  lemma LockStep(steps: seq<Step>, s: State, c: nat)
    requires Run(INIT, steps, s) && InputsFit(steps) && 0 < c < |s| && Alive(s, c)
    ensures |Reads(s[c].inbox)| + One(Busy(s[c].status)) + s[c].acks == One(IsWaitingOn(s, s[c].parent, c))
    ensures s[c].taken + Reads(s[c].inbox) == s[c].sent
    ensures s[c].acked + One(Busy(s[c].status)) == |s[c].taken| + 1
  {
    InitInv(true);
    RunKeepsInv(INIT, steps, s, true);
    assert Edge(s, c, true);
    ReadsOfStream(s[c].sent);
  }

  /** Dead or alive, what a child has executed is a prefix of what its parent sent; the rest was lost with it. */
  lemma ExecutedIsPrefixOfSent(steps: seq<Step>, s: State, c: nat)
    requires Run(INIT, steps, s) && InputsFit(steps) && 0 < c < |s|
    ensures s[c].taken <= s[c].sent
  {
    InitInv(true);
    RunKeepsInv(INIT, steps, s, true);
    EveryByteArrives(steps, s, c);
    assert Edge(s, c, true);
    ReadsOfStream(s[c].sent);
  }

  /** Forwarding a line in lock step keeps the lock step if and only if the forwarded line is short. */
  lemma SendKeepsLockStepExactly(s: State, p: nat)
    requires Inv(s, false) && Enabled(s, Send(p)) && Pending(s[Target(s, p)]) == 0
    ensures var line, t, c := Dispatch(s[p].status.line).line, Next(s, Send(p)), Target(s, p);
      && IsWaitingOn(t, p, c)
      && (Pending(t[c]) == 1 <==> Short(line))
      && (!Short(line) ==> Pending(t[c]) >= 2)
  {
    hide Fits, OneLine, ReadLine, Dispatch, Reads, Stream, Ended, Short, AllShort, AllOneLine;
    var c := Target(s, p);
    assert Edge(s, c, false);
    LineForwarded(s[p], false);
    WriteArrives(s[c].taken, s[c].inbox, s[c].sent, Dispatch(s[p].status.line).line);
  }

  /** When a process dies, none of its children is at work: a parent never exits under a running command. */
  lemma DeadParentsHaveIdleChildren(s: State, c: nat)
    requires Inv(s, true) && 0 < c < |s| && Alive(s, c) && !IsWaitingOn(s, s[c].parent, c)
    ensures !Busy(s[c].status) && s[c].inbox == "" && s[c].acks == 0
  {
    assert Edge(s, c, true);
  }

  // ---- At most one process executes ----

  /** On the way down to a busy process everyone waits, each for the next one. */
  lemma {:induction false} AncestorsWait(s: State, q: nat, a: nat) returns (c: nat)
    requires Inv(s, true) && q < |s| && Under(s, q, a) && q != a && Busy(s[q].status)
    ensures IsWaitingOn(s, a, c) && Under(s, q, c) && c <= q
    decreases q
  {
    assert Edge(s, q, true);
    var p := s[q].parent;
    if p == a {
      c := q;
    } else {
      c := AncestorsWait(s, p, a);
    }
  }

  lemma {:induction false} UnderIsOlder(s: State, q: nat, a: nat)
    requires Under(s, q, a)
    ensures a <= q
    decreases q
  {
    if q != a { UnderIsOlder(s, s[q].parent, a); }
  }

  /** Busy processes lie on one path from the root. */
  lemma {:induction false} BusyOnOnePath(s: State, a: nat, b: nat)
    requires Inv(s, true) && a <= b < |s| && Busy(s[a].status) && Busy(s[b].status)
    ensures Under(s, b, a)
    decreases a + b
  {
    if a < b {
      assert Edge(s, b, true);
      var p := s[b].parent;
      if a <= p {
        BusyOnOnePath(s, a, p);
      } else {
        BusyOnOnePath(s, p, a);
        var c := AncestorsWait(s, a, p);
        UnderIsOlder(s, a, c);
      }
    }
  }

  lemma AtMostOneExecutes(steps: seq<Step>, s: State, a: nat, b: nat)
    requires Run(INIT, steps, s) && InputsFit(steps) && a < |s| && b < |s| && Executing(s[a].status) && Executing(s[b].status)
    ensures a == b
  {
    InitInv(true);
    RunKeepsInv(INIT, steps, s, true);
    if a < b {
      BusyOnOnePath(s, a, b);
      var c := AncestorsWait(s, b, a);
    } else if b < a {
      BusyOnOnePath(s, b, a);
      var c := AncestorsWait(s, a, b);
    }
  }
}
