/**
 Whole futex waits, from the lookup to the return, with the steps of all other threads in between; and
 what the counters of a slot count.
 */
module FutexCalls {
  import opened Common
  import opened FutexTable
  import opened FutexProtocol

  // What a wait returns: 0, or -1 with an errno.
  datatype WaitCode = OK | EAGAIN | EINVAL | ETIMEDOUT | ENOMEM

  // A wait that has its slot.
  predicate InWait(p: Phase) { p.Looked? || p.Locked? || p.Tested? || p.Asleep? || p.Awake? }

  // What the event returns to its caller, if it ends a wait.
  function Returns(s: System, e: Event): WaitCode
    requires e.Relock? ==> e.t in s.threads && s.threads[e.t].Awake?
  {
    match e
    case LookForWait(_, _, _, _, _) => ENOMEM
    case Test(_) => EAGAIN
    case Sleep(_, _) => EINVAL
    case Relock(t) => if s.threads[t].timed && s.threads[t].failed then ETIMEDOUT else OK
    case _ => OK
  }

  // The wait thread t is in returns with the last event of es, and not before.
  ghost predicate Finishes(s: System, es: seq<Event>, t: nat)
    ensures Finishes(s, es, t) ==> Runs(s, es) && es != []
    decreases |es|
  {
    && es != [] && Enabled(s, es[0]) && t in s.threads && InWait(s.threads[t])
    && var next := Next(s, es[0]);
       t in next.threads && if next.threads[t].Idle? then |es| == 1 else Finishes(next, es[1..], t)
  }

  // The state before the last event.
  ghost function LastState(s: System, es: seq<Event>): (r: System)
    requires Runs(s, es) && es != []
    ensures Enabled(r, es[|es| - 1])
    decreases |es|
  {
    if |es| == 1 then s
    else
      assert es[1..][|es[1..]| - 1] == es[|es| - 1];
      LastState(Next(s, es[0]), es[1..])
  }

  ghost function Result(s: System, es: seq<Event>): WaitCode
    requires Runs(s, es) && es != []
  {
    Returns(LastState(s, es), es[|es| - 1])
  }

  // ---------------------------------------------------------------- what happened on the way

  // t counts itself and goes to sleep.
  ghost predicate GoesToSleep(s: System, e: Event, t: nat)
    requires Enabled(s, e)
  {
    && e.Sleep? && e.t == t
    && var next, slot := Next(s, e), s.threads[t].slot;
       && t in next.threads && IsAsleep(next.threads[t], slot) && slot < |next.table|
       && next.table[slot].waiters == s.table[slot].waiters + 1
  }

  // A wake on t's word takes t off the queue.
  ghost predicate IsWoken(s: System, e: Event, t: nat)
    requires Enabled(s, e)
  {
    && e.Wake? && t in e.woken && t in s.threads && s.threads[t].Asleep?
    && s.threads[e.t].u == s.threads[t].u
  }

  ghost predicate Slept(s: System, es: seq<Event>, t: nat)
    requires Runs(s, es)
    decreases |es|
  {
    es != [] && (GoesToSleep(s, es[0], t) || Slept(Next(s, es[0]), es[1..], t))
  }

  ghost predicate Woken(s: System, es: seq<Event>, t: nat)
    requires Runs(s, es)
    decreases |es|
  {
    es != [] && (IsWoken(s, es[0], t) || Woken(Next(s, es[0]), es[1..], t))
  }

  predicate RanOut(es: seq<Event>, t: nat) { TimeOut(t) in es }

  // ---------------------------------------------------------------- one step of a wait

  // What every event leaves alone of a wait that goes on.
  predicate SameWait(p: Phase, q: Phase)
    requires InWait(p) && InWait(q)
  {
    p.u == q.u && p.val == q.val && p.slot == q.slot && p.timed == q.timed
  }

  // Asleep, or awake again.
  predicate PastSleep(p: Phase) { p.Asleep? || p.Awake? }

  // How an event may move a wait that goes on.
  ghost predicate MovesWait(s: System, e: Event, t: nat)
    requires Enabled(s, e) && t in s.threads && InWait(s.threads[t]) && t in Next(s, e).threads
  {
    var p, q := s.threads[t], Next(s, e).threads[t];
    && InWait(q) && SameWait(p, q)
    && (PastSleep(p) ==> PastSleep(q))
    && (!PastSleep(p) && PastSleep(q) ==> GoesToSleep(s, e, t) && q.Asleep?)
    && (p.Awake? ==> q == p)
    && (p.Asleep? && q.Awake? && q.failed ==> e == TimeOut(t))
    && (p.Asleep? && q.Awake? && !q.failed ==> IsWoken(s, e, t))
  }

  lemma {:induction false} WakeMovesWait(s: System, e: Event, t: nat)
    requires Inv(s) && e.Wake? && Enabled(s, e) && t in s.threads && InWait(s.threads[t])
    ensures t in Next(s, e).threads && MovesWait(s, e, t)
  {
    assert PhaseOk(s, t, s.threads[t]) && PhaseOk(s, e.t, s.threads[e.t]);
    assert t in e.woken ==> t in Sleepers(s, s.threads[e.t].slot);
  }

  lemma {:induction false} OtherLeavesWait(s: System, e: Event, t: nat)
    requires Enabled(s, e) && !e.Wake? && (e.Store? || e.t != t) && t in s.threads && InWait(s.threads[t])
    ensures t in Next(s, e).threads && Next(s, e).threads[t] == s.threads[t]
  {
  }

  lemma {:induction false} OwnMovesWait(s: System, e: Event, t: nat)
    requires Inv(s) && Enabled(s, e) && !e.Wake? && !e.Store? && e.t == t
    requires t in s.threads && InWait(s.threads[t]) && t in Next(s, e).threads && !Next(s, e).threads[t].Idle?
    ensures MovesWait(s, e, t)
  {
    assert PhaseOk(s, t, s.threads[t]);
  }

  lemma {:induction false} WaitGoesOn(s: System, e: Event, t: nat)
    requires Inv(s) && Enabled(s, e) && t in s.threads && InWait(s.threads[t])
    requires t in Next(s, e).threads && !Next(s, e).threads[t].Idle?
    ensures MovesWait(s, e, t)
  {
    if e.Wake? { WakeMovesWait(s, e, t); }
    else if e.Store? || e.t != t { OtherLeavesWait(s, e, t); }
    else { OwnMovesWait(s, e, t); }
  }

  // The last step of a wait: the reasons it may have.
  lemma {:induction false} WaitEndsFor(s: System, e: Event, t: nat)
    requires Inv(s) && Enabled(s, e) && t in s.threads && InWait(s.threads[t])
    requires t in Next(s, e).threads && Next(s, e).threads[t].Idle?
    ensures var p := s.threads[t];
      match Returns(s, e)
      case EAGAIN => e == Test(t) && p.Locked? && p.u in s.words && s.words[p.u] != p.val
      case EINVAL => e == Sleep(t, true) && p.Tested? && p.timed
      case ETIMEDOUT => e == Relock(t) && p.Awake? && p.timed && p.failed
      case OK => e == Relock(t) && p.Awake? && !(p.timed && p.failed)
      case ENOMEM => false
  {
  }

  // ---------------------------------------------------------------- whole waits

  // How a wait may end, in terms of what happened on the way and of the state before its last step.
  ghost predicate EndsWell(s: System, es: seq<Event>, t: nat)
    requires Runs(s, es) && es != [] && t in s.threads && InWait(s.threads[t])
  {
    var p, last := s.threads[t], LastState(s, es);
    match Result(s, es)
    case EAGAIN => !PastSleep(p) && p.u in last.words && last.words[p.u] != p.val && es[|es| - 1] == Test(t)
    case EINVAL => !PastSleep(p) && p.timed && es[|es| - 1] == Sleep(t, true)
    case ENOMEM => false
    case ETIMEDOUT =>
      && p.timed && (PastSleep(p) || Slept(s, es, t)) && (p.Awake? ==> p.failed) && (!p.Awake? ==> RanOut(es, t))
    case OK =>
      && (PastSleep(p) || Slept(s, es, t)) && (p.Awake? ==> !(p.timed && p.failed))
      && (!p.Awake? ==> Woken(s, es, t) || (!p.timed && RanOut(es, t)))
  }

  lemma {:induction false} LastStep(s: System, e: Event, t: nat)
    requires Inv(s) && Enabled(s, e) && Finishes(s, [e], t)
    ensures EndsWell(s, [e], t)
  {
    assert Next(s, e).threads[t].Idle?;
    WaitEndsFor(s, e, t);
  }

  lemma {:induction false} EarlierStep(s: System, es: seq<Event>, t: nat)
    requires Inv(s) && Finishes(s, es, t) && |es| > 1
    requires EndsWell(Next(s, es[0]), es[1..], t)
    ensures EndsWell(s, es, t)
  {
    var rest := es[1..];
    WaitGoesOn(s, es[0], t);
    assert rest[|rest| - 1] == es[|es| - 1];
    assert RanOut(rest, t) ==> RanOut(es, t);
    assert es[0] == TimeOut(t) ==> RanOut(es, t);
  }

  lemma {:induction false} WaitsEndWell(s: System, es: seq<Event>, t: nat)
    requires Inv(s) && Finishes(s, es, t)
    ensures EndsWell(s, es, t)
    decreases |es|
  {
    if |es| == 1 {
      assert es == [es[0]];
      LastStep(s, es[0], t);
    } else {
      StepKeeps(s, es[0]);
      assert InWait(Next(s, es[0]).threads[t]);
      WaitsEndWell(Next(s, es[0]), es[1..], t);
      EarlierStep(s, es, t);
    }
  }

  /**
   A whole wait, whatever the other threads do meanwhile.  It returns without having slept only with
   EAGAIN, when the word differed at its test, or with EINVAL, for a time-out that is not valid; it
   returns 0 only after it slept and was woken through its own word, or, with no time-out of its own,
   after the periodic recheck; ETIMEDOUT only after it slept and its own time-out ran out.
   */
  lemma {:induction false} WaitOutcome(s: System, look: Event, es: seq<Event>)
    requires Inv(s) && look.LookForWait? && Enabled(s, look) && look.found >= 0 && Finishes(Next(s, look), es, look.t)
    ensures
      var start, last := Next(s, look), LastState(Next(s, look), es);
      var slept, woken := Slept(start, es, look.t), Woken(start, es, look.t);
      match Result(start, es)
      case EAGAIN => look.u in last.words && last.words[look.u] != look.val && es[|es| - 1] == Test(look.t)
      case EINVAL => look.timed && es[|es| - 1] == Sleep(look.t, true)
      case ENOMEM => false
      case ETIMEDOUT => look.timed && slept && RanOut(es, look.t)
      case OK => slept && (woken || (!look.timed && RanOut(es, look.t)))
  {
    StepKeeps(s, look);
    WaitsEndWell(Next(s, look), es, look.t);
  }

  /** A wait is turned away at once, with ENOMEM, exactly if its word has no slot and none is free. */
  lemma {:induction false} NoRoomToWait(s: System, look: Event)
    requires Inv(s) && look.LookForWait? && Enabled(s, look)
    ensures
      var turned := look.u !in Keys(s.table) && forall i: nat | i < |s.table| :: s.table[i].used;
      && (Next(s, look).threads[look.t].Idle? <==> turned)
      && (turned ==> Returns(s, look) == ENOMEM && Next(s, look).table == s.table)
      && (!turned ==> Next(s, look).threads[look.t] == Looked(look.u, look.val, look.found, look.timed))
  {
  }

  /** With the slot lock held and the word still at its value, a wait goes to sleep, with or without a time-out. */
  lemma {:induction false} MatchingWordSleeps(s: System, t: nat, bad: bool)
    requires Inv(s) && t in s.threads && s.threads[t].Locked?
    requires s.threads[t].u in s.words && s.words[s.threads[t].u] == s.threads[t].val
    ensures Enabled(s, Test(t)) && Enabled(Next(s, Test(t)), Sleep(t, bad))
    ensures
      var p, end := s.threads[t], Next(Next(s, Test(t)), Sleep(t, bad));
      var waiters := end.table[p.slot].waiters;
      && p.slot !in end.holders
      && if bad && p.timed then end.threads[t] == Idle && waiters == s.table[p.slot].waiters
         else end.threads[t] == Asleep(p.u, p.val, p.slot, p.timed) && waiters == s.table[p.slot].waiters + 1
  {
    assert PhaseOk(s, t, s.threads[t]);
  }

  /** A wait that has its slot takes the slot lock as soon as nobody holds it. */
  lemma {:induction false} FreeLockIsTaken(s: System, t: nat)
    requires t in s.threads && s.threads[t].Looked?
    ensures Enabled(s, Lock(t)) <==> s.threads[t].slot !in s.holders
    ensures s.threads[t].slot !in s.holders ==>
      var p, next := s.threads[t], Next(s, Lock(t));
      next.threads[t] == Locked(p.u, p.val, p.slot, p.timed) && p.slot in next.holders && next.holders[p.slot] == t
  {
  }

  /** A wake takes exactly the threads it wakes off the queue, and moves no other thread but the waker. */
  lemma {:induction false} WokenAreAwake(s: System, e: Event, t: nat)
    requires Inv(s) && e.Wake? && Enabled(s, e) && t in s.threads && t != e.t
    ensures t in Next(s, e).threads
    ensures
      var p := s.threads[t];
      Next(s, e).threads[t] == if t in e.woken then Awake(p.u, p.val, p.slot, p.timed, false) else p
    ensures t in e.woken ==> s.threads[t].Asleep? && s.threads[t].u == s.threads[e.t].u
  {
    assert PhaseOk(s, t, s.threads[t]) && PhaseOk(s, e.t, s.threads[e.t]);
    assert t in e.woken ==> t in Sleepers(s, s.threads[e.t].slot);
  }

  // ---------------------------------------------------------------- what the counters count

  datatype Tally = Tally(waits: nat, wakes: nat, woken: nat, timeouts: nat, rechecks: nat)

  // What one event adds to the counters of slot i.
  ghost function Adds(s: System, e: Event, i: nat): Tally
    requires Enabled(s, e)
  {
    match e
    case Sleep(t, _) => if s.threads[t].slot == i then Tally(1, 0, 0, 0, 0) else Tally(0, 0, 0, 0, 0)
    case Wake(t, _) =>
      var p := s.threads[t];
      if p.slot == i then Tally(0, 1, WakeCount(s.table[i], p.requested), 0, 0) else Tally(0, 0, 0, 0, 0)
    case Relock(t) =>
      var p := s.threads[t];
      if p.slot == i && p.failed then (if p.timed then Tally(0, 0, 0, 1, 0) else Tally(0, 0, 0, 0, 1))
      else Tally(0, 0, 0, 0, 0)
    case _ => Tally(0, 0, 0, 0, 0)
  }

  function Sum(a: Tally, b: Tally): Tally {
    Tally(a.waits + b.waits, a.wakes + b.wakes, a.woken + b.woken, a.timeouts + b.timeouts, a.rechecks + b.rechecks)
  }

  ghost function Total(s: System, es: seq<Event>, i: nat): Tally
    requires Runs(s, es)
    decreases |es|
  {
    if es == [] then Tally(0, 0, 0, 0, 0) else Sum(Adds(s, es[0], i), Total(Next(s, es[0]), es[1..], i))
  }

  function CountersOf(x: FutexSlot): Tally {
    Tally(x.waitCalls, x.wakeCalls, x.wakeTotal, x.timeouts, x.compatTimeouts)
  }

  lemma {:induction false} CountedStep(s: System, e: Event, i: nat)
    requires Enabled(s, e) && i < |s.table| && (e.Sleep? || e.Relock? || e.Wake?)
    ensures |Next(s, e).table| == |s.table|
    ensures CountersOf(Next(s, e).table[i]) == Sum(CountersOf(s.table[i]), Adds(s, e, i))
  {
    var x := s.table[i];
    if e.Sleep? {
      assert CountersOf(Entered(x)) == Sum(CountersOf(x), Tally(1, 0, 0, 0, 0));
    }
  }

  // No other step touches a counter, be it that of a slot it fills.
  lemma {:induction false} UncountedStep(s: System, e: Event, i: nat)
    requires Enabled(s, e) && i < |s.table| && !e.Sleep? && !e.Relock? && !e.Wake?
    requires !s.table[i].used ==> s.table[i] == EMPTY_SLOT
    ensures |Next(s, e).table| == |s.table|
    ensures CountersOf(Next(s, e).table[i]) == CountersOf(s.table[i])
  {
  }

  lemma {:induction false} StepCounts(s: System, e: Event, i: nat)
    requires Inv(s) && Enabled(s, e) && i < |s.table|
    ensures |Next(s, e).table| == |s.table|
    ensures CountersOf(Next(s, e).table[i]) == Sum(CountersOf(s.table[i]), Adds(s, e, i))
  {
    if e.Sleep? || e.Relock? || e.Wake? { CountedStep(s, e, i); } else { UncountedStep(s, e, i); }
  }

  lemma SumInSteps(before: Tally, step: Tally, rest: Tally)
    ensures Sum(Sum(before, step), rest) == Sum(before, Sum(step, rest))
  {
  }

  /**
   Over every run each counter of a slot grows by exactly what it is there to count: waits that reached
   their sleep, wakes, the numbers the wakes returned, time-outs asked for, and periodic rechecks.
   */
  lemma {:induction false} CountersCount(s: System, es: seq<Event>, i: nat)
    requires Inv(s) && Runs(s, es) && i < |s.table|
    ensures |After(s, es).table| == |s.table|
    ensures CountersOf(After(s, es).table[i]) == Sum(CountersOf(s.table[i]), Total(s, es, i))
    decreases |es|
  {
    if es != [] {
      StepCounts(s, es[0], i);
      StepKeeps(s, es[0]);
      CountersCount(Next(s, es[0]), es[1..], i);
      SumInSteps(CountersOf(s.table[i]), Adds(s, es[0], i), Total(Next(s, es[0]), es[1..], i));
    }
  }

  ghost function Arrives(s: System, e: Event, i: nat): nat
    requires Enabled(s, e)
  {
    if e.Sleep? && s.threads[e.t].slot == i then s.table[i].waiters + 1 else 0
  }

  // The most waiters a wait on slot i found when it counted itself, itself included.
  ghost function MostWaiting(s: System, es: seq<Event>, i: nat): nat
    requires Runs(s, es)
    decreases |es|
  {
    if es == [] then 0 else Max(Arrives(s, es[0], i), MostWaiting(Next(s, es[0]), es[1..], i))
  }

  lemma {:induction false} StepPeak(s: System, e: Event, i: nat)
    requires Enabled(s, e) && i < |s.table| && (!s.table[i].used ==> s.table[i] == EMPTY_SLOT)
    ensures |Next(s, e).table| == |s.table|
    ensures Next(s, e).table[i].peakWaiters == Max(s.table[i].peakWaiters, Arrives(s, e, i))
  {
  }

  /** The peak of a slot is the most waiters there ever were at once. */
  lemma {:induction false} PeakIsHistoricalMaximum(s: System, es: seq<Event>, i: nat)
    requires Inv(s) && Runs(s, es) && i < |s.table|
    ensures |After(s, es).table| == |s.table|
    ensures After(s, es).table[i].peakWaiters == Max(s.table[i].peakWaiters, MostWaiting(s, es, i))
    decreases |es|
  {
    if es != [] {
      StepPeak(s, es[0], i);
      StepKeeps(s, es[0]);
      PeakIsHistoricalMaximum(Next(s, es[0]), es[1..], i);
    }
  }

  // ---------------------------------------------------------------- every wait can finish

  // How many steps a wait has left at most.
  function StepsLeft(p: Phase): nat {
    match p
    case Looked(_, _, _, _) => 5
    case Locked(_, _, _, _) => 4
    case Tested(_, _, _, _) => 3
    case Asleep(_, _, _, _) => 2
    case Awake(_, _, _, _, _) => 1
    case _ => 0
  }

  predicate OwnStep(e: Event, t: nat) {
    e == Lock(t) || e == Test(t) || e == Sleep(t, false) || e == TimeOut(t) || e == Relock(t)
  }

  // The slot lock is free, or t has it because its wait is where it holds it.
  predicate LockIsOurs(s: System, t: nat)
    requires t in s.threads && InWait(s.threads[t])
  {
    HoldsLock(s.threads[t]) || s.threads[t].slot !in s.holders
  }

  function OwnNext(p: Phase, t: nat): Event {
    match p
    case Looked(_, _, _, _) => Lock(t)
    case Locked(_, _, _, _) => Test(t)
    case Tested(_, _, _, _) => Sleep(t, false)
    case Asleep(_, _, _, _) => TimeOut(t)
    case _ => Relock(t)
  }

  lemma {:induction false} OwnStepGoesOn(s: System, t: nat)
    requires Inv(s) && t in s.threads && InWait(s.threads[t]) && LockIsOurs(s, t) && s.threads[t].u in s.words
    ensures Enabled(s, OwnNext(s.threads[t], t))
    ensures
      var p, next := s.threads[t], Next(s, OwnNext(s.threads[t], t));
      && t in next.threads && next.words == s.words
      && (next.threads[t].Idle? ||
          (InWait(next.threads[t]) && LockIsOurs(next, t) && next.threads[t].u == p.u
           && StepsLeft(next.threads[t]) < StepsLeft(p)))
  {
    assert PhaseOk(s, t, s.threads[t]);
  }

  /** A wait whose thread goes on alone, with the slot lock free or its own, comes to its end. */
  lemma {:induction false} AloneFinishes(s: System, t: nat) returns (es: seq<Event>)
    requires Inv(s) && t in s.threads && InWait(s.threads[t]) && LockIsOurs(s, t) && s.threads[t].u in s.words
    ensures Finishes(s, es, t) && forall k | 0 <= k < |es| :: OwnStep(es[k], t)
    decreases StepsLeft(s.threads[t])
  {
    var e := OwnNext(s.threads[t], t);
    OwnStepGoesOn(s, t);
    StepKeeps(s, e);
    if Next(s, e).threads[t].Idle? {
      es := [e];
    } else {
      var rest := AloneFinishes(Next(s, e), t);
      es := [e] + rest;
      assert es[1..] == rest;
    }
  }
}
