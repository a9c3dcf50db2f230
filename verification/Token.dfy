/** In lock step there is one place in the tree where something can happen, besides processes on their way out. */
module Token {
  import opened Routing
  import opened Pipe
  import opened Protocol

  /** A process that executes, has something to read, or has responded. */
  predicate HasToken(s: State, x: nat) {
    x < |s| && (Executing(s[x].status) || (x > 0 && (s[x].inbox != "" || s[x].acks > 0)))
  }

  lemma ParentWaits(s: State, x: nat)
    requires Inv(s, true) && HasToken(s, x) && !Executing(s[x].status)
    ensures 0 < x && s[x].parent < x && IsWaitingOn(s, s[x].parent, x) && !Busy(s[x].status)
  {
    assert Edge(s, x, true);
    if s[x].inbox != "" {
      FirstRead(s[x].inbox);
    }
    hide Reads;
  }

  /** Every busy process is the one with the token, or above it. */
  lemma BusyAbove(s: State, x: nat, q: nat)
    requires Inv(s, true) && HasToken(s, x) && q < |s| && Busy(s[q].status)
    ensures Under(s, x, q)
  {
    hide Inv, Under;
    if Executing(s[x].status) {
      if q <= x {
        BusyOnOnePath(s, q, x);
      } else {
        BusyOnOnePath(s, x, q);
        var c := AncestorsWait(s, q, x);
      }
    } else {
      ParentWaits(s, x);
      var p := s[x].parent;
      if q <= p {
        BusyOnOnePath(s, q, p);
        UnderParent(s, x, q);
      } else {
        BusyOnOnePath(s, p, q);
        var c := AncestorsWait(s, q, p);
        assert c == x;
        if q != x {
          var d := AncestorsWait(s, q, x);
        }
      }
    }
  }

  lemma UnderParent(s: State, x: nat, q: nat)
    requires 0 < x < |s| && s[x].parent < x
    ensures Under(s, x, q) <==> x == q || Under(s, s[x].parent, q)
  {
  }

  /** Of two processes with a token, one executing and the other waited for, there is no such pair. */
  lemma NotBoth(s: State, a: nat, b: nat)
    requires Inv(s, true) && HasToken(s, a) && HasToken(s, b) && Executing(s[a].status)
    ensures Executing(s[b].status)
  {
    hide Inv, Under;
    if !Executing(s[b].status) {
      ParentWaits(s, b);
      var p := s[b].parent;
      BusyAbove(s, b, a);
      UnderParent(s, b, a);
      BusyAbove(s, a, p);
      UnderIsOlder(s, a, p);
      UnderIsOlder(s, p, a);
    }
  }

  lemma OneToken(s: State, a: nat, b: nat)
    requires Inv(s, true) && HasToken(s, a) && HasToken(s, b)
    ensures a == b
  {
    hide Inv, Under, HasToken;
    TokenInState(s, a);
    TokenInState(s, b);
    if Executing(s[a].status) || Executing(s[b].status) {
      if Executing(s[a].status) { NotBoth(s, a, b); } else { NotBoth(s, b, a); }
      BusyAbove(s, a, b);
      BusyAbove(s, b, a);
      UnderIsOlder(s, a, b);
      UnderIsOlder(s, b, a);
    } else {
      ParentWaits(s, a);
      ParentWaits(s, b);
      BusyAbove(s, b, s[a].parent);
      BusyAbove(s, a, s[b].parent);
      UnderParent(s, b, s[a].parent);
      UnderParent(s, a, s[b].parent);
      UnderIsOlder(s, s[b].parent, s[a].parent);
      UnderIsOlder(s, s[a].parent, s[b].parent);
    }
  }

  lemma TokenInState(s: State, x: nat)
    requires HasToken(s, x)
    ensures x < |s|
  {
  }

  /** Steps of processes on their way out, and their removal from a list. */
  predicate InBackground(s: State, step: Step) {
    step.Reap? || step.Eof? || (step.Exit? && step.p < |s| && s[step.p].status.Quitting?)
  }

  /** Whose token a step takes. */
  function TokenOf(s: State, step: Step): nat {
    match step
    case ReadInput(_) => 0
    case EndOfInput => 0
    case Read(p) => p
    case Eof(p) => p
    case Respond(p) => p
    case Local(p) => p
    case Fail(p) => p
    case Quit(p) => p
    case Hangup(p) => p
    case Spawn(p, _) => p
    case Send(p) => p
    case BrokenPipe(p) => p
    case TakeAck(p) => if p < |s| && s[p].status.Waiting? then s[p].status.child else p
    case TakeEof(p) => p
    case Exit(p) => p
    case Reap(p) => p
  }

  /** If there is a token, it keeps the response pipe open that a process waits for. */
  lemma LiveBelow(s: State, p: nat, c: nat, x: nat) returns (q: nat)
    requires Inv(s, true) && IsWaitingOn(s, p, c) && c < |s| && s[c].acks == 0 && HasToken(s, x)
    ensures HoldsResponsePipe(s, q, c)
  {
    BusyAbove(s, x, p);
    hide Inv, Under;
    if Executing(s[x].status) {
      var d := AncestorsWait(s, x, p);
      q := x;
    } else {
      ParentWaits(s, x);
      if s[x].parent == p {
        AliveWithInput(s, x);
        Itself(s, x);
        q := x;
      } else {
        UnderParent(s, x, p);
        q := s[x].parent;
        var d := AncestorsWait(s, q, p);
      }
    }
  }

  /** While a process waits for a dead one there is no token. */
  lemma NoTokenAtEof(s: State, p: nat, x: nat)
    requires Inv(s, true) && Enabled(s, TakeEof(p))
    ensures !HasToken(s, x)
  {
    hide Inv, HasToken, HoldsResponsePipe;
    if HasToken(s, x) {
      var q := LiveBelow(s, p, s[p].status.child, x);
    }
  }

  lemma AliveWithInput(s: State, x: nat)
    requires Inv(s, true) && 0 < x < |s|
    ensures s[x].inbox != "" ==> Alive(s, x)
  {
    assert Edge(s, x, true);
  }

  lemma Itself(s: State, x: nat)
    ensures Under(s, x, x)
  {
  }

  /** In lock step, only the process with the token moves, or its parent takes its response. */
  lemma OnlyTheTokenMoves(s: State, x: nat, step: Step)
    requires Inv(s, true) && HasToken(s, x) && Enabled(s, step) && !FromOutside(step) && !InBackground(s, step)
    ensures TokenOf(s, step) == x
  {
    if step.TakeEof? {
      NoTokenAtEof(s, step.p, x);
    } else {
      StepHasToken(s, step);
      OneToken(s, TokenOf(s, step), x);
    }
  }

  lemma StepHasToken(s: State, step: Step)
    requires Inv(s, true) && Enabled(s, step) && !FromOutside(step) && !InBackground(s, step) && !step.TakeEof?
    ensures HasToken(s, TokenOf(s, step))
  {
    hide Dispatch, HasReader, Target;
    if step.TakeAck? {
      assert Listed(s, step.p, s[step.p].status.child);
    }
  }
}
