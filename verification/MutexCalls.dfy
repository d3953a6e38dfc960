/**
 Whole calls of lock, trylock, unlock and the condition wait, from the call to its return, with the
 instructions of all other threads in between.
 */
module MutexCalls {
  import opened PthreadMutex

  // The call thread t is in returns with the last event of es, and not before.
  predicate Finishes(s: System, es: seq<Event>, t: nat)
    ensures Finishes(s, es, t) ==> Runs(s, es) && t in After(s, es).pcs
    decreases |es|
  {
    && es != [] && Enabled(s, es[0]) && t in s.pcs && s.pcs[t] != Idle
    && var next := Next(s, es[0]);
       if next.pcs[t] == Idle then |es| == 1 else Finishes(next, es[1..], t)
  }

  // The state before the last event: its thread returns what its last instruction decides.
  function LastState(s: System, es: seq<Event>, t: nat): (r: System)
    requires Finishes(s, es, t)
    ensures t in r.pcs
    decreases |es|
  {
    if |es| == 1 then s else LastState(Next(s, es[0]), es[1..], t)
  }

  function Result(s: System, es: seq<Event>, t: nat): Code
    requires Finishes(s, es, t)
  {
    Returns(LastState(s, es, t), t)
  }

  // What an event of another thread leaves alone, and what every event leaves alone.
  lemma OthersLeaveThread(s: System, e: Event, t: nat)
    requires Enabled(s, e) && e.t != t && t in s.pcs && t in s.locks
    ensures var next := Next(s, e); t in next.locks && next.pcs[t] == s.pcs[t] && next.locks[t] == s.locks[t]
  {
  }

  lemma KindStays(s: System, e: Event)
    requires Enabled(s, e)
    ensures Next(s, e).m.kind == s.m.kind
  {
  }

  // A thread inside a call can only execute.
  lemma InsideRuns(s: System, e: Event, t: nat)
    requires Enabled(s, e) && t in s.pcs && s.pcs[t] != Idle && e.t == t
    ensures e == Run(t)
  {
  }

  // ---------------------------------------------------------------- lock and trylock

  predicate Trying(pc: Pc) { (pc.LockReadOwner? && pc.try) || (pc.LockHost? && pc.try) }

  // How a lock or trylock of a thread with n locks ends: its result, its locks afterwards, and the slot
  // before its last instruction and after it.
  predicate LockEndsWell(kind: Kind, trying: bool, n: nat, code: Code, n': nat, last: Slot, m': Slot, t: nat) {
    match code
    case OK => n' == n + 1 && Owns(m', t, n') && (n > 0 ==> kind == Recursive && n < UINT32_MAX)
    case EDEADLK => n > 0 && n' == n && kind == ErrorCheck
    case EAGAIN => n == UINT32_MAX && n' == n && kind == Recursive
    case EBUSY => trying && n == 0 && n' == 0 && last.holder != 0 && last.holder != t
    case _ => false
  }

  lemma {:induction false} LastLockStep(s: System, t: nat)
    requires Inv(s) && Enabled(s, Run(t)) && Locking(s.pcs[t]) && LastStep(s, t)
    ensures var next := Next(s, Run(t));
      LockEndsWell(s.m.kind, Trying(s.pcs[t]), s.locks[t], Returns(s, t), next.locks[t], s.m, next.m, t)
  {
    assert ThreadOk(s.m, t, s.pcs[t], s.locks[t]);
  }

  lemma {:induction false} LockStepGoesOn(s: System, t: nat)
    requires Inv(s) && Enabled(s, Run(t)) && Locking(s.pcs[t]) && !LastStep(s, t)
    ensures var next := Next(s, Run(t));
      && Locking(next.pcs[t]) && next.locks[t] == s.locks[t]
      && (Trying(next.pcs[t]) ==> Trying(s.pcs[t]))
  {
    assert ThreadOk(s.m, t, s.pcs[t], s.locks[t]);
  }

  lemma {:induction false} LockingEnds(s: System, es: seq<Event>, t: nat)
    requires Inv(s) && Finishes(s, es, t) && Locking(s.pcs[t])
    ensures var end, last := After(s, es), LastState(s, es, t);
      && t in end.locks
      && LockEndsWell(s.m.kind, Trying(s.pcs[t]), s.locks[t], Result(s, es, t), end.locks[t], last.m, end.m, t)
    decreases |es|
  {
    var next := Next(s, es[0]);
    KindStays(s, es[0]);
    StepKeeps(s, es[0]);
    if es[0].t == t {
      InsideRuns(s, es[0], t);
      if next.pcs[t] == Idle { LastLockStep(s, t); } else { LockStepGoesOn(s, t); }
    } else {
      OthersLeaveThread(s, es[0], t);
    }
    if next.pcs[t] != Idle { LockingEnds(next, es[1..], t); }
  }

  /**
   A whole lock or trylock, whatever the other threads do meanwhile.  A thread without the mutex gets it,
   once, or hears EBUSY from a trylock that found another holder; a thread that has it gets one more lock
   of a recursive mutex below the limit, EAGAIN at the limit, and EDEADLK of an error-checking one.
   */
  lemma {:induction false} LockOutcome(s: System, t: nat, try: bool, es: seq<Event>)
    requires Inv(s) && Enabled(s, CallLock(t, try)) && Finishes(Next(s, CallLock(t, try)), es, t)
    ensures
      var start := Next(s, CallLock(t, try));
      var n, code, end, last := s.locks[t], Result(start, es, t), After(start, es), LastState(start, es, t);
      && t in end.locks
      && (n == 0 ==>
            || (code == OK && end.locks[t] == 1 && Owns(end.m, t, 1))
            || (try && code == EBUSY && end.locks[t] == 0 && last.m.holder != 0 && last.m.holder != t))
      && (n > 0 ==>
            if s.m.kind == ErrorCheck then code == EDEADLK && end.locks[t] == n
            else if n == UINT32_MAX then code == EAGAIN && end.locks[t] == n
            else code == OK && end.locks[t] == n + 1 && Owns(end.m, t, n + 1))
  {
    var start := Next(s, CallLock(t, try));
    StepKeeps(s, CallLock(t, try));
    LockingEnds(start, es, t);
  }

  // ---------------------------------------------------------------- unlock

  // The locks the thread had when it called unlock.
  function LocksBefore(pc: Pc, n: nat): nat { if pc.UnlockClearOwner? || pc.UnlockHost? then n + 1 else n }

  predicate UnlockEndsWell(n: nat, code: Code, n': nat, m': Slot, t: nat) {
    if n == 0 then code == EPERM && n' == 0
    else
      && code == OK && n' == n - 1
      && if n' > 0 then Owns(m', t, n') else m'.holder == 0 && m'.owner == 0 && m'.depth == 0
  }

  lemma {:induction false} UnlockStep(s: System, t: nat)
    requires Inv(s) && Enabled(s, Run(t)) && Unlocking(s.pcs[t])
    ensures var next, n := Next(s, Run(t)), LocksBefore(s.pcs[t], s.locks[t]);
      if LastStep(s, t) then UnlockEndsWell(n, Returns(s, t), next.locks[t], next.m, t)
      else Unlocking(next.pcs[t]) && LocksBefore(next.pcs[t], next.locks[t]) == n
  {
    assert ThreadOk(s.m, t, s.pcs[t], s.locks[t]);
  }

  lemma {:induction false} UnlockingEnds(s: System, es: seq<Event>, t: nat)
    requires Inv(s) && Finishes(s, es, t) && Unlocking(s.pcs[t])
    ensures var end := After(s, es);
      && t in end.locks
      && UnlockEndsWell(LocksBefore(s.pcs[t], s.locks[t]), Result(s, es, t), end.locks[t], end.m, t)
    decreases |es|
  {
    var next := Next(s, es[0]);
    StepKeeps(s, es[0]);
    if es[0].t == t {
      InsideRuns(s, es[0], t);
      UnlockStep(s, t);
    } else {
      OthersLeaveThread(s, es[0], t);
    }
    if next.pcs[t] != Idle { UnlockingEnds(next, es[1..], t); }
  }

  /** A whole unlock undoes one lock and, with the last one, gives the mutex back; without a lock it is EPERM. */
  lemma {:induction false} UnlockOutcome(s: System, t: nat, es: seq<Event>)
    requires Inv(s) && Enabled(s, CallUnlock(t)) && Finishes(Next(s, CallUnlock(t)), es, t)
    ensures
      var start := Next(s, CallUnlock(t));
      var n, code, end := s.locks[t], Result(start, es, t), After(start, es);
      && t in end.locks
      && (n == 0 ==> code == EPERM && end.locks[t] == 0)
      && (n > 0 ==> code == OK && end.locks[t] == n - 1)
      && (n > 1 ==> Owns(end.m, t, n - 1))
      && (n == 1 ==> end.m.holder == 0 && end.m.owner == 0 && end.m.depth == 0)
  {
    StepKeeps(s, CallUnlock(t));
    UnlockingEnds(Next(s, CallUnlock(t)), es, t);
  }

  // ---------------------------------------------------------------- condition wait

  // The run takes t to sleep on the condition with the mutex given back: free for everybody.
  ghost predicate SleepsWithout(s: System, es: seq<Event>, t: nat)
    requires Runs(s, es)
    decreases |es|
  {
    && es != []
    && var next := Next(s, es[0]);
       || (&& es[0] == Run(t) && next.pcs[t] == WaitAsleep
           && next.m.holder == 0 && next.m.owner == 0 && next.m.depth == 0)
       || SleepsWithout(next, es[1..], t)
  }

  // The run takes t to sleep on the condition with the host mutex kept.
  ghost predicate SleepsWith(s: System, es: seq<Event>, t: nat)
    requires Runs(s, es)
    decreases |es|
  {
    && es != []
    && var next := Next(s, es[0]);
       || (es[0] == Run(t) && next.pcs[t] == DeepAsleep && next.m.holder == t)
       || SleepsWith(next, es[1..], t)
  }

  // t holds the host mutex in every state of the run.
  ghost predicate KeepsHost(s: System, es: seq<Event>, t: nat)
    requires Runs(s, es)
    decreases |es|
  {
    s.m.holder == t && (es != [] ==> KeepsHost(Next(s, es[0]), es[1..], t))
  }

  predicate InWait(pc: Pc) { Waiting(pc) && !pc.Idle? }

  predicate AwakeAgain(pc: Pc) { pc.WaitAsleep? || pc.WaitSetDepth? || pc.WaitSetOwner? || Deep(pc) }

  /** A wait returns OK only from the store that takes the mutex back, or from the one that restores the depth. */
  lemma {:induction false} WaitReturnsFrom(s: System, t: nat)
    requires Inv(s) && Enabled(s, Run(t)) && InWait(s.pcs[t]) && LastStep(s, t)
    ensures
      var n, next := s.locks[t], Next(s, Run(t));
      if n == 0 then Returns(s, t) == BadInput && next.locks[t] == 0
      else
        && Returns(s, t) == OK && next.locks[t] == n && Owns(next.m, t, n)
        && if n == 1 then s.pcs[t] == WaitSetOwner else s.pcs[t].DeepStoreDepth?
  {
    assert ThreadOk(s.m, t, s.pcs[t], s.locks[t]);
  }

  // A step of a wait towards its sleep, into it, or away from it.
  lemma {:induction false} WaitStepGoesOn(s: System, t: nat)
    requires Inv(s) && Enabled(s, Run(t)) && InWait(s.pcs[t]) && !LastStep(s, t)
    ensures
      var n, next := s.locks[t], Next(s, Run(t));
      && InWait(next.pcs[t]) && next.locks[t] == n && n > 0
      && (AwakeAgain(s.pcs[t]) ==> AwakeAgain(next.pcs[t]))
      && (n == 1 && !AwakeAgain(s.pcs[t]) && AwakeAgain(next.pcs[t]) ==>
            next.pcs[t] == WaitAsleep && next.m.holder == 0 && next.m.owner == 0 && next.m.depth == 0)
      && (n > 1 && !AwakeAgain(s.pcs[t]) && AwakeAgain(next.pcs[t]) ==> next.pcs[t] == DeepAsleep)
  {
    assert ThreadOk(s.m, t, s.pcs[t], s.locks[t]);
  }

  // A thread with more than one lock holds the host mutex throughout.
  lemma {:induction false} DeepHolds(s: System, t: nat)
    requires Inv(s) && t in s.pcs && s.locks[t] > 1
    ensures s.m.holder == t
  {
    assert ThreadOk(s.m, t, s.pcs[t], s.locks[t]);
  }

  lemma {:induction false} WaitingEnds(s: System, es: seq<Event>, t: nat)
    requires Inv(s) && Finishes(s, es, t) && InWait(s.pcs[t])
    ensures
      var n, code, end := s.locks[t], Result(s, es, t), After(s, es);
      && t in end.locks && end.locks[t] == n
      && (n == 0 ==> code == BadInput)
      && (n > 0 ==> code == OK && Owns(end.m, t, n))
      && (n == 1 && !AwakeAgain(s.pcs[t]) ==> SleepsWithout(s, es, t))
      && (n > 1 ==> KeepsHost(s, es, t))
      && (n > 1 && !AwakeAgain(s.pcs[t]) ==> SleepsWith(s, es, t))
    decreases |es|
  {
    var next := Next(s, es[0]);
    StepKeeps(s, es[0]);
    if s.locks[t] > 1 { DeepHolds(s, t); }
    if es[0].t == t {
      InsideRuns(s, es[0], t);
      if next.pcs[t] == Idle { WaitReturnsFrom(s, t); } else { WaitStepGoesOn(s, t); }
    } else {
      OthersLeaveThread(s, es[0], t);
    }
    if next.locks[t] > 1 { DeepHolds(next, t); }
    if next.pcs[t] != Idle { WaitingEnds(next, es[1..], t); }
  }

  /**
   A whole condition wait, whatever the other threads do meanwhile.  Called with one lock it goes to sleep
   with holder, owner and depth cleared; called with more it goes to sleep on the condition's own mutex
   and holds the host mutex throughout.  Either way it returns OK with the locks it had; without the
   mutex it is refused.
   */
  lemma {:induction false} WaitOutcome(s: System, t: nat, es: seq<Event>)
    requires Inv(s) && Enabled(s, CallWait(t)) && Finishes(Next(s, CallWait(t)), es, t)
    ensures
      var start := Next(s, CallWait(t));
      var n, code, end := s.locks[t], Result(start, es, t), After(start, es);
      && t in end.locks && end.locks[t] == n
      && (n == 0 ==> code == BadInput)
      && (n > 0 ==> code == OK && Owns(end.m, t, n))
      && (n == 1 ==> SleepsWithout(start, es, t))
      && (n > 1 ==> SleepsWith(start, es, t) && KeepsHost(start, es, t))
  {
    StepKeeps(s, CallWait(t));
    WaitingEnds(Next(s, CallWait(t)), es, t);
  }

  // ---------------------------------------------------------------- every call ends

  // How many instructions a call has left at most.
  function Left(pc: Pc): nat {
    match pc
    case Idle => 0
    case LockReadOwner(_) => 4
    case LockAgain => 3
    case LockLoadDepth => 2
    case LockStoreDepth(_) => 1
    case LockHost(_) => 3
    case LockSetDepth => 2
    case LockSetOwner => 1
    case UnlockReadOwner => 6
    case UnlockReadDepth => 5
    case UnlockTestDepth => 4
    case UnlockLoadDepth => 2
    case UnlockStoreDepth(_) => 1
    case UnlockZeroDepth => 3
    case UnlockClearOwner => 2
    case UnlockHost => 1
    case WaitReadOwner => 9
    case WaitReadDepth => 8
    case WaitTestDepth => 7
    case WaitZeroDepth => 6
    case WaitClearOwner => 5
    case WaitSleep => 4
    case WaitAsleep => 3
    case WaitSetDepth => 2
    case WaitSetOwner => 1
    case WaitLoadDepth => 5
    case WaitStoreDepth(_) => 4
    case DeepAsleep => 3
    case DeepLoadDepth => 2
    case DeepStoreDepth(_) => 1
  }

  // The instructions t executes in the run.
  function Executed(es: seq<Event>, t: nat): nat {
    if es == [] then 0 else (if es[0] == Run(t) then 1 else 0) + Executed(es[1..], t)
  }

  lemma OneLess(v: View, t: nat)
    requires v.pc != Idle
    ensures Left(Execute(v, t).pc) < Left(v.pc) <= 9
  {
  }

  /** No call executes more than nine instructions of its own: it ends unless the host mutex is kept from it. */
  lemma {:induction false} CallsAreShort(s: System, es: seq<Event>, t: nat)
    requires Finishes(s, es, t) && t in s.locks
    ensures 0 < Executed(es, t) <= Left(s.pcs[t]) <= 9
    decreases |es|
  {
    var next := Next(s, es[0]);
    if es[0].t == t {
      InsideRuns(s, es[0], t);
      OneLess(ViewOf(s, t), t);
    } else {
      OthersLeaveThread(s, es[0], t);
    }
    if next.pcs[t] != Idle { CallsAreShort(next, es[1..], t); }
  }

  /** A thread in a call can execute, unless it waits for a host mutex that somebody holds. */
  lemma NeverStuck(s: System, t: nat)
    requires Inv(s) && t in s.pcs && s.pcs[t] != Idle
    ensures Enabled(s, Run(t)) <==> !(s.m.holder != 0 && (s.pcs[t] == LockHost(false) || s.pcs[t] == WaitAsleep))
  {
  }

  /** A thread outside a call may make any call. */
  lemma IdleMayCall(s: System, t: nat, try: bool)
    requires Inv(s) && t in s.pcs
    ensures Enabled(s, CallLock(t, try)) <==> s.pcs[t] == Idle
    ensures Enabled(s, CallUnlock(t)) <==> s.pcs[t] == Idle
    ensures Enabled(s, CallWait(t)) <==> s.pcs[t] == Idle
  {
  }

  /** Every call that a thread outside one makes begins: it has instructions to execute before it returns. */
  lemma CallBegins(s: System, e: Event)
    requires Enabled(s, e) && !e.Run?
    ensures
      var next := Next(s, e);
      && next.m == s.m && next.locks == s.locks && next.pcs[e.t] != Idle
      && match e
         case CallLock(t, try) => Locking(next.pcs[t]) && (Trying(next.pcs[t]) <==> try)
         case CallUnlock(t) => Unlocking(next.pcs[t])
         case CallWait(t) => InWait(next.pcs[t])
  {
  }

  // Nobody but t executes.
  predicate OnlyRuns(es: seq<Event>, t: nat) { forall k | 0 <= k < |es| :: es[k] == Run(t) }

  lemma HolderStays(s: System, t: nat)
    requires Inv(s) && Enabled(s, Run(t)) && (s.m.holder == 0 || s.m.holder == t)
    ensures Next(s, Run(t)).m.holder == 0 || Next(s, Run(t)).m.holder == t
  {
  }

  /** A call whose thread executes alone, with the host mutex free or its own, comes to its end. */
  lemma {:induction false} AloneFinishes(s: System, t: nat) returns (es: seq<Event>)
    requires Inv(s) && t in s.pcs && s.pcs[t] != Idle && (s.m.holder == 0 || s.m.holder == t)
    ensures Finishes(s, es, t) && OnlyRuns(es, t)
    decreases Left(s.pcs[t])
  {
    NeverStuck(s, t);
    assert ThreadOk(s.m, t, s.pcs[t], s.locks[t]);
    var next := Next(s, Run(t));
    OneLess(ViewOf(s, t), t);
    StepKeeps(s, Run(t));
    if next.pcs[t] == Idle {
      es := [Run(t)];
    } else {
      HolderStays(s, t);
      var rest := AloneFinishes(next, t);
      es := [Run(t)] + rest;
      assert es[1..] == rest;
    }
  }
}
