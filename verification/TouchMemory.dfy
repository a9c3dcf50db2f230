/** The page-stride loop behind `touch`, and the signal handler that can stop it. */
module TouchMemory {
  import opened Wrappers
  import opened Words
  import opened PageWindow

  datatype Signal = Int | Quit | Segv | Bus | Usr1 | Usr2

  predicate IsFault(s: Signal) { s.Segv? || s.Bus? }

  predicate IsInterrupt(s: Signal) { s.Int? || s.Quit? }

  /** What the handler does to the interrupted code. */
  datatype Effect = Resume | LongJump | Die

  /**
   * Signals delivered during one iteration, by program point: before arming, armed before the access,
   * whether the access itself faults, armed after the access, and after disarming.
   * A fault while armed jumps, so later signals of the same list are not delivered.
   */
  datatype Delivery = Delivery(unarmed: seq<Signal>, armed: seq<Signal>, faults: Option<Signal>,
                               stillArmed: seq<Signal>, disarmed: seq<Signal>)

  const QUIET := Delivery([], [], None, [], [])

  predicate HasFault(ss: seq<Signal>) {
    exists i :: 0 <= i < |ss| && IsFault(ss[i])
  }

  /** Only signals that the handler survives: faults while armed, interrupts at any time. */
  ghost predicate NonFatal(d: Delivery) {
    && (forall s | s in d.unarmed :: IsInterrupt(s))
    && (forall s | s in d.armed :: IsInterrupt(s) || IsFault(s))
    && (forall s | s in d.stillArmed :: IsInterrupt(s) || IsFault(s))
    && (forall s | s in d.disarmed :: IsInterrupt(s))
    && (d.faults.Some? ==> IsFault(d.faults.value))
  }

  lemma NonFatalMeans(d: Delivery)
    ensures NonFatal(d) <==>
      && (forall s | s in d.unarmed + d.disarmed :: s == Int || s == Quit)
      && Usr1 !in d.armed + d.stillArmed && Usr2 !in d.armed + d.stillArmed
      && (d.faults.None? || d.faults == Some(Segv) || d.faults == Some(Bus))
  {
    if Usr1 !in d.armed + d.stillArmed && Usr2 !in d.armed + d.stillArmed {
      assert forall s | s in d.armed :: s in d.armed + d.stillArmed;
      assert forall s | s in d.stillArmed :: s in d.armed + d.stillArmed;
    }
    assert forall s | s in d.unarmed :: s in d.unarmed + d.disarmed;
    assert forall s | s in d.disarmed :: s in d.unarmed + d.disarmed;
  }

  predicate JumpsBeforeAccess(d: Delivery) { HasFault(d.armed) || d.faults.Some? }

  /**
   * Specification: how many of `total` pages are accessed under a schedule, one delivery an iteration and
   * quiet when it runs out; `pending` says that a signal was recorded before the loop started.
   */
  ghost function Completed(pending: bool, schedule: seq<Delivery>, total: nat): (n: nat)
    ensures n <= total
    decreases total
  {
    var d := if schedule == [] then QUIET else schedule[0];
    if total == 0 || JumpsBeforeAccess(d) then 0
    else if pending || d != QUIET then 1
    else 1 + Completed(false, if schedule == [] then [] else schedule[1..], total - 1)
  }

  function PageAt(start: nat, pagesize: nat, n: nat): nat {
    if n == 0 then start else PageAt(start, pagesize, n - 1) + pagesize
  }

  /** The first word of each of the first `n` pages. */
  function FirstWords(start: nat, pagesize: nat, n: nat): seq<nat> {
    if n == 0 then [] else FirstWords(start, pagesize, n - 1) + [PageAt(start, pagesize, n - 1)]
  }

  /** Memory after each listed address was set to itself. */
  function SelfAddressed(memory: map<nat, nat>, addrs: seq<nat>): map<nat, nat> {
    if addrs == [] then memory
    else SelfAddressed(memory, addrs[..|addrs| - 1])[addrs[|addrs| - 1] := addrs[|addrs| - 1]]
  }

  lemma EightDivides(m: nat, t: nat)
    requires m == 8 * t
    ensures m / 8 * 8 == m
  {
  }

  lemma Regroup(q: nat, n: nat)
    ensures 8 * q * n == 8 * (q * n)
  {
  }

  lemma WholeWords(memlen: Word, p: Word)
    requires PowerOfTwo(p) && 8 <= p && memlen % p == 0
    ensures p / 8 * 8 == p && memlen / 8 * 8 == memlen == memlen / p * p
  {
    var k: nat :| k < 64 && p == Pow2(k);
    assert Pow2(3) == 8;
    if k < 3 { Pow2Monotone(k, 3); }
    Pow2Split(3, k - 3);
    var q, n := Pow2(k - 3), memlen / p;
    hide Pow2, PowerOfTwo;
    EightDivides(p, q);
    Regroup(q, n);
    EightDivides(memlen, q * n);
  }

  lemma {:induction false} PageAtIsLinear(start: nat, p: nat, n: nat)
    ensures PageAt(start, p, n) == start + n * p
  {
    if n > 0 {
      PageAtIsLinear(start, p, n - 1);
      assert n * p == (n - 1) * p + p;
    }
  }

  lemma {:induction false} MorePages(start: nat, p: nat, n: nat, total: nat)
    requires p > 0 && n <= total
    ensures n < total ==> PageAt(start, p, n) < PageAt(start, p, total)
    decreases total
  {
    if n < total { MorePages(start, p, n, total - 1); }
  }

  /** The accesses and the memory after the first `n` words of a window were touched. */
  ghost predicate Touched(rw: bool, start: nat, pagesize: nat, n: nat,
                          accesses0: seq<nat>, accesses: seq<nat>, memory0: map<nat, nat>, memory: map<nat, nat>) {
    && accesses == accesses0 + FirstWords(start, pagesize, n)
    && memory == if rw then SelfAddressed(memory0, FirstWords(start, pagesize, n)) else memory0
  }

  lemma TouchedOneMore(rw: bool, start: nat, pagesize: nat, n: nat,
                       accesses0: seq<nat>, accesses: seq<nat>, memory0: map<nat, nat>, memory: map<nat, nat>)
    requires Touched(rw, start, pagesize, n, accesses0, accesses, memory0, memory)
    ensures var pp := PageAt(start, pagesize, n);
      Touched(rw, start, pagesize, n + 1, accesses0, accesses + [pp], memory0, if rw then memory[pp := pp] else memory)
  {
  }

  /** Each page once, in order: entry `i` is the start of page `i`, whatever the number of pages accessed. */
  lemma {:induction false} FirstWordsInOrder(start: nat, pagesize: nat, n: nat, total: nat)
    requires n <= total
    ensures |FirstWords(start, pagesize, n)| == n
    ensures forall i | 0 <= i < n :: FirstWords(start, pagesize, n)[i] == start + i * pagesize
    ensures FirstWords(start, pagesize, n) <= FirstWords(start, pagesize, total)
    decreases total
  {
    if n < total {
      FirstWordsInOrder(start, pagesize, n, total - 1);
    } else if n > 0 {
      FirstWordsInOrder(start, pagesize, n - 1, n - 1);
      PageAtIsLinear(start, pagesize, n - 1);
    }
  }

  /** The run is complete exactly when nothing arrives before the last access is made. */
  lemma {:induction false} CompleteRuns(pending: bool, schedule: seq<Delivery>, total: nat)
    ensures Completed(pending, schedule, total) == total <==>
      && (pending ==> total <= 1)
      && (forall i | 0 <= i < |schedule| && i < total - 1 :: schedule[i] == QUIET)
      && (0 < total <= |schedule| ==> !JumpsBeforeAccess(schedule[total - 1]))
    decreases total
  {
    if total > 0 && schedule != [] {
      var rest := schedule[1..];
      CompleteRuns(false, rest, total - 1);
      if total > 1 {
        assert (forall i | 0 <= i < |schedule| && i < total - 1 :: schedule[i] == QUIET)
          <==> schedule[0] == QUIET && (forall i | 0 <= i < |rest| && i < total - 2 :: rest[i] == QUIET) by {
          if schedule[0] == QUIET && (forall i | 0 <= i < |rest| && i < total - 2 :: rest[i] == QUIET) {
            forall i | 0 <= i < |schedule| && i < total - 1
              ensures schedule[i] == QUIET
            {
              if i > 0 { assert schedule[i] == rest[i - 1]; }
            }
          }
        }
      }
    } else if total > 0 {
      CompleteRuns(false, [], total - 1);
    }
  }

  /** What arrives during iteration `i`; nothing once the schedule has run out. */
  function Arriving(schedule: seq<Delivery>, i: nat): Delivery {
    if i < |schedule| then schedule[i] else Delivery([], [], None, [], [])
  }

  /** A fault while the handler is armed: sent by someone, or caused by the access. */
  ghost predicate Faults(d: Delivery) {
    d.faults.Some? || Segv in d.armed || Bus in d.armed
  }

  lemma JumpsOnFaults(d: Delivery)
    ensures JumpsBeforeAccess(d) <==> Faults(d)
  {
    if Faults(d) && d.faults.None? {
      var i :| 0 <= i < |d.armed| && (d.armed[i] == Segv || d.armed[i] == Bus);
      assert IsFault(d.armed[i]);
    }
  }

  function Later(schedule: seq<Delivery>): seq<Delivery> {
    if schedule == [] then [] else schedule[1..]
  }

  lemma ArrivingLater(schedule: seq<Delivery>, i: nat)
    ensures Arriving(Later(schedule), i) == Arriving(schedule, i + 1)
  {
  }

  lemma CompletedStep(pending: bool, schedule: seq<Delivery>, total: nat)
    ensures var d := Arriving(schedule, 0);
      Completed(pending, schedule, total) ==
        if total == 0 || Faults(d) then 0
        else if pending || d != QUIET then 1
        else 1 + Completed(false, Later(schedule), total - 1)
  {
    JumpsOnFaults(Arriving(schedule, 0));
  }

  /**
   * Every page before the last accessed one was left in peace. The loop stops early for one of two reasons: a fault before the
   * next access, or a signal of any kind at the last one, recorded during it or before the loop started.
   */
  lemma {:induction false} StopsAtFirstSignal(pending: bool, schedule: seq<Delivery>, total: nat)
    ensures var n := Completed(pending, schedule, total);
      && (forall i | 0 <= i < n - 1 :: Arriving(schedule, i) == QUIET) && (pending ==> n <= 1)
      && (n > 0 ==> !Faults(Arriving(schedule, n - 1)))
      && (n < total ==> Faults(Arriving(schedule, n)) || (n > 0 && (Arriving(schedule, n - 1) != QUIET || pending)))
    decreases total
  {
    CompletedStep(pending, schedule, total);
    NoFaultInQuiet();
    hide Completed, Arriving, Faults;
    if total > 0 && !pending && Arriving(schedule, 0) == QUIET {
      var n := Completed(false, Later(schedule), total - 1);
      StopsAtFirstSignal(false, Later(schedule), total - 1);
      ArrivingLater(schedule, n);
      if n > 0 { ArrivingLater(schedule, n - 1); }
      forall i | 0 <= i < n
        ensures Arriving(schedule, i) == QUIET
      {
        if i > 0 { ArrivingLater(schedule, i - 1); }
      }
    }
  }

  lemma NoFaultInQuiet()
    ensures !Faults(QUIET)
  {
  }

  /** Writing touches set exactly the listed words, each to its own address. */
  lemma {:induction false} SelfAddressedMeans(memory: map<nat, nat>, addrs: seq<nat>, a: nat)
    ensures var after := SelfAddressed(memory, addrs);
      && (a in after <==> a in memory || a in addrs)
      && (a in addrs && a in after ==> after[a] == a)
      && (a !in addrs && a in memory && a in after ==> after[a] == memory[a])
  {
    if addrs != [] {
      var init, last := addrs[..|addrs| - 1], addrs[|addrs| - 1];
      SelfAddressedMeans(memory, init, a);
      assert addrs == init + [last];
      assert a in addrs <==> a in init || a == last;
    }
  }

  class Context {
    var siginfo: Option<Signal>
    var sigjmp: bool
    var memory: map<nat, nat>
    ghost var accesses: seq<nat>

    constructor ()
      ensures siginfo == None && !sigjmp && memory == map[] && accesses == []
    {
      siginfo, sigjmp, memory, accesses := None, false, map[], [];
    }

    method SignalHandler(sig: Signal) returns (effect: Effect)
      modifies `siginfo, `sigjmp
      ensures siginfo == Some(sig)
      ensures sig == Segv || sig == Bus ==> effect == (if old(sigjmp) then LongJump else Die) && !sigjmp
      ensures sig == Int || sig == Quit ==> effect == Resume && sigjmp == old(sigjmp)
      ensures sig == Usr1 || sig == Usr2 ==> effect == Die && sigjmp == old(sigjmp)
    {
      siginfo := Some(sig);
      match sig
      case Segv | Bus =>
        if sigjmp {
          sigjmp := false;
          return LongJump;
        }
        effect := Die;
      case Int | Quit =>
        effect := Resume;
      case Usr1 | Usr2 =>
        effect := Die;
    }

    method ResetSignal()
      modifies `siginfo, `sigjmp
      ensures siginfo == None && !sigjmp
    {
      siginfo := None;
      sigjmp := false;
    }

    /** Deliver signals in order until one of them does not resume. */
    method Deliver(sigs: seq<Signal>) returns (effect: Effect)
      requires forall s | s in sigs :: IsInterrupt(s) || (IsFault(s) && sigjmp)
      modifies `siginfo, `sigjmp
      ensures effect == if HasFault(sigs) then LongJump else Resume
      ensures sigjmp == (old(sigjmp) && !HasFault(sigs))
      ensures sigs == [] ==> effect == Resume && siginfo == old(siginfo)
      ensures siginfo.None? <==> sigs == [] && old(siginfo).None?
    {
      effect := Resume;
      for i := 0 to |sigs|
        invariant effect == Resume && !HasFault(sigs[..i])
        invariant sigjmp == old(sigjmp)
        invariant if i == 0 then siginfo == old(siginfo) else siginfo.Some?
      {
        assert sigs[..i + 1] == sigs[..i] + [sigs[i]];
        effect := SignalHandler(sigs[i]);
        if effect == LongJump {
          return;
        }
        assert !HasFault(sigs[..i + 1]);
      }
      assert sigs[..|sigs|] == sigs;
    }

    /** From arming the fault handler to disarming it; a jump means that sigsetjmp() returned a second time. */
    method ArmedAccess(rw: bool, pp: nat, d: Delivery) returns (touched: bool, effect: Effect)
      requires NonFatal(d)
      modifies this
      ensures touched == !JumpsBeforeAccess(d)
      ensures effect == if touched && !HasFault(d.stillArmed) then Resume else LongJump
      ensures accesses == if touched then old(accesses) + [pp] else old(accesses)
      ensures memory == if rw && touched then old(memory)[pp := pp] else old(memory)
      ensures effect == Resume ==> (siginfo.None? <==> old(siginfo).None? && d.armed == [] && d.stillArmed == [])
    {
      hide HasFault;
      sigjmp := true;
      effect := Deliver(d.armed);
      if effect == Resume && d.faults.Some? {
        effect := SignalHandler(d.faults.value);
      }
      touched := effect == Resume;
      if touched {
        if rw {
          memory := memory[pp := pp];
        }
        accesses := accesses + [pp];
        effect := Deliver(d.stillArmed);
      }
    }

    /** One pass of the loop body, for the word at `pp`. */
    method TouchWord(rw: bool, pp: nat, d: Delivery) returns (touched: bool, stop: bool)
      requires NonFatal(d)
      modifies this
      ensures touched == !JumpsBeforeAccess(d)
      ensures stop == (!touched || old(siginfo).Some? || d != QUIET)
      ensures accesses == if touched then old(accesses) + [pp] else old(accesses)
      ensures memory == if rw && touched then old(memory)[pp := pp] else old(memory)
      ensures !sigjmp && (!stop ==> siginfo.None?)
    {
      var effect := Deliver(d.unarmed);
      touched, effect := ArmedAccess(rw, pp, d);
      if effect == LongJump {
        ResetSignal();
        stop := true;
      } else {
        sigjmp := false;
        effect := Deliver(d.disarmed);
        stop := siginfo != None;
        if stop {
          ResetSignal();
        }
      }
    }

    method TouchMemory(rw: bool, memp: nat, memlen: Word, pagesize: Word, schedule: seq<Delivery>) returns (pages: nat)
      requires PowerOfTwo(pagesize) && 8 <= pagesize && memlen % pagesize == 0
      requires forall d | d in schedule :: NonFatal(d)
      modifies this
      ensures pages == Completed(old(siginfo).Some?, schedule, memlen / pagesize)
      ensures Touched(rw, memp, pagesize, pages, old(accesses), accesses, old(memory), memory)
      ensures sigjmp ==> memlen == 0 && old(sigjmp)
    {
      pages := 0;
      var longsInPage := pagesize / 8;
      var memend := memp + memlen / 8 * 8;
      var pp := memp;
      var todo := schedule;
      ghost var total := memlen / pagesize;
      WholeWords(memlen, pagesize);
      PageAtIsLinear(memp, pagesize, total);
      assert Touched(rw, memp, pagesize, 0, accesses, accesses, memory, memory);
      hide Touched, PowerOfTwo, NonFatal, JumpsBeforeAccess;
      while pp < memend
        invariant pages <= total && pp == PageAt(memp, pagesize, pages)
        invariant pages > 0 ==> !sigjmp
        invariant pages == 0 ==> siginfo == old(siginfo) && sigjmp == old(sigjmp)
        invariant forall d | d in todo :: NonFatal(d)
        invariant Completed(old(siginfo).Some?, schedule, total) == pages + Completed(siginfo.Some?, todo, total - pages)
        invariant Touched(rw, memp, pagesize, pages, old(accesses), accesses, old(memory), memory)
        decreases total - pages
      {
        MorePages(memp, pagesize, pages, total);
        var d := if todo == [] then QUIET else todo[0];
        TouchedOneMore(rw, memp, pagesize, pages, old(accesses), accesses, old(memory), memory);
        var touched, stop := TouchWord(rw, pp, d);
        if touched {
          pages := pages + 1;
        }
        if stop {
          return;
        }
        pp := pp + longsInPage * 8;
        todo := if todo == [] then [] else todo[1..];
      }
      MorePages(memp, pagesize, pages, total);
    }
  }
}
