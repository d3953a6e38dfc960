/**
 Futex wait and wake across threads.  The registry lock makes each slot lookup one step; a
 slot's lock is held across the steps of a wait from its test to its sleep; other threads may
 store to the futex word at any moment.
 */
module FutexProtocol {
  import opened Common
  import Bits
  import opened FutexTable

  datatype Phase =
    | Idle
    | Looked(u: nat, val: int, slot: nat, timed: bool)    // wait: has its slot, wants the slot lock
    | Locked(u: nat, val: int, slot: nat, timed: bool)    // wait: holds the slot lock, about to test
    | Tested(u: nat, val: int, slot: nat, timed: bool)    // wait: saw *u == val, still holds the lock
    | Asleep(u: nat, val: int, slot: nat, timed: bool)    // wait: counted, queued on the condition variable
    | Awake(u: nat, val: int, slot: nat, timed: bool, failed: bool)  // wait: off the queue, wants the lock back
    | Waking(u: nat, requested: nat, slot: nat)           // wake: has its slot, wants the slot lock

  datatype System = System(
    w: nat, table: seq<FutexSlot>, words: map<nat, int>, threads: map<nat, Phase>, holders: map<nat, nat>)

  datatype Event =
    | Store(u: nat, v: int)
    | LookForWait(t: nat, u: nat, val: int, timed: bool, found: int)
    | Lock(t: nat)
    | Test(t: nat)
    | Sleep(t: nat, badTimeout: bool)
    | TimeOut(t: nat)
    | Relock(t: nat)
    | LookForWake(t: nat, u: nat, val: int, found: int)
    | Wake(t: nat, woken: set<nat>)

  // ---------------------------------------------------------------- who is where

  predicate IsAsleep(p: Phase, slot: nat) { p.Asleep? && p.slot == slot }

  // Has passed the test on word u and not returned.
  predicate Waits(p: Phase, u: nat) { (p.Tested? || p.Asleep? || p.Awake?) && p.u == u }

  predicate IsCounted(p: Phase, slot: nat) { (p.Asleep? || p.Awake?) && p.slot == slot }

  function Sleepers(s: System, slot: nat): set<nat> {
    set t | t in s.threads && IsAsleep(s.threads[t], slot)
  }

  function Counted(s: System, slot: nat): set<nat> {
    set t | t in s.threads && IsCounted(s.threads[t], slot)
  }

  // ---------------------------------------------------------------- steps

  // The table after SlotGet(u, create) returned `found`.
  function Entering(s: System, u: nat, found: int): seq<FutexSlot> {
    if 0 <= found < |s.table| && !s.table[found].used then s.table[found := NewSlot(u)] else s.table
  }

  // What SlotGet promises about the index it returns.
  ghost predicate Finds(s: System, u: nat, create: bool, found: int) {
    && Probed(Entering(s, u, found), s.w)
    && if u in Keys(s.table) then
         0 <= found < |s.table| && s.table[found].used && s.table[found].key == u
       else if !create || forall i: nat | i < |s.table| :: s.table[i].used then
         found == -1
       else
         0 <= found < |s.table| && !s.table[found].used
  }

  // The sleepers a signal may wake: libnx wakes one queued thread per wake-one, all per wake-all.
  predicate SignalWakes(signal: Signal, sleepers: set<nat>, woken: set<nat>) {
    woken <= sleepers &&
    match signal
    case NoSignal => woken == {}
    case WakeAll => woken == sleepers
    case WakeOnes(times) => |woken| == Min(times, |sleepers|)
  }

  ghost predicate Enabled(s: System, e: Event) {
    match e
    case Store(_, _) => true
    case LookForWait(t, u, _, _, found) =>
      t in s.threads && s.threads[t].Idle? && u in s.words && Finds(s, u, true, found)
    case Lock(t) => t in s.threads && s.threads[t].Looked? && s.threads[t].slot !in s.holders
    case Test(t) => t in s.threads && s.threads[t].Locked? && s.threads[t].u in s.words
    case Sleep(t, _) => t in s.threads && s.threads[t].Tested? && s.threads[t].slot < |s.table|
    case TimeOut(t) => t in s.threads && s.threads[t].Asleep?
    case Relock(t) =>
      t in s.threads && s.threads[t].Awake? && s.threads[t].slot !in s.holders && s.threads[t].slot < |s.table|
    case LookForWake(t, u, val, found) =>
      t in s.threads && s.threads[t].Idle? && val > 0 && Finds(s, u, false, found)
    case Wake(t, woken) =>
      && t in s.threads && s.threads[t].Waking? && s.threads[t].slot !in s.holders && s.threads[t].slot < |s.table|
      && var p := s.threads[t];
         SignalWakes(SignalFor(s.table[p.slot], p.requested), Sleepers(s, p.slot), woken)
  }

  function Become(s: System, t: nat, p: Phase): System { s.(threads := s.threads[t := p]) }

  function Unlocked(s: System, slot: nat): System { s.(holders := s.holders - {slot}) }

  function Roused(p: Phase, waker: bool, woken: bool): Phase {
    if waker then Idle
    else if woken && p.Asleep? then Awake(p.u, p.val, p.slot, p.timed, false)
    else p
  }

  ghost function Next(s: System, e: Event): System
    requires Enabled(s, e)
  {
    match e
    case Store(u, v) => s.(words := s.words[u := v])
    case LookForWait(t, u, val, timed, found) =>
      Become(s, t, if found < 0 then Idle else Looked(u, val, found, timed)).(table := Entering(s, u, found))
    case Lock(t) =>
      var p := s.threads[t];
      Become(s, t, Locked(p.u, p.val, p.slot, p.timed)).(holders := s.holders[p.slot := t])
    case Test(t) =>
      var p := s.threads[t];
      if s.words[p.u] != p.val then Unlocked(Become(s, t, Idle), p.slot)
      else Become(s, t, Tested(p.u, p.val, p.slot, p.timed))
    case Sleep(t, badTimeout) =>
      var p := s.threads[t];
      var entered := Entered(s.table[p.slot]);
      if badTimeout && p.timed then
        Unlocked(Become(s, t, Idle), p.slot).(table := s.table[p.slot := entered.(waiters := s.table[p.slot].waiters)])
      else
        Unlocked(Become(s, t, Asleep(p.u, p.val, p.slot, p.timed)), p.slot).(table := s.table[p.slot := entered])
    case TimeOut(t) =>
      var p := s.threads[t];
      Become(s, t, Awake(p.u, p.val, p.slot, p.timed, true))
    case Relock(t) =>
      var p := s.threads[t];
      Become(s, t, Idle).(table := s.table[p.slot := Left(s.table[p.slot], p.timed, p.failed)])
    case LookForWake(t, u, val, found) => Become(s, t, if found < 0 then Idle else Waking(u, val, found))
    case Wake(t, woken) =>
      var p := s.threads[t];
      s.(table := s.table[p.slot := Waked(s.table[p.slot], p.requested)],
         threads := map r | r in s.threads :: Roused(s.threads[r], r == t, r in woken))
  }

  // ---------------------------------------------------------------- the invariant

  predicate HoldsLock(p: Phase) { p.Locked? || p.Tested? }

  predicate PhaseOk(s: System, t: nat, p: Phase) {
    p.Idle? ||
    (&& p.slot < |s.table| && s.table[p.slot].used && s.table[p.slot].key == p.u
     && (HoldsLock(p) ==> p.slot in s.holders && s.holders[p.slot] == t))
  }

  ghost predicate Inv(s: System) {
    && Probed(s.table, s.w)
    && (forall t | t in s.threads :: PhaseOk(s, t, s.threads[t]))
    && (forall i: nat | i < |s.table| :: s.table[i].waiters == |Counted(s, i)|)
    && (forall i: nat | i < |s.table| :: !s.table[i].used ==> s.table[i] == EMPTY_SLOT)
  }

  // ---------------------------------------------------------------- every step keeps it

  // A step that moves thread t alone changes the count of a slot by t's own membership.
  lemma {:induction false} CountedChange(s: System, s': System, t: nat, slot: nat)
    requires t in s.threads && t in s'.threads && s'.threads == s.threads[t := s'.threads[t]]
    ensures
      |Counted(s', slot)| ==
        |Counted(s, slot)| - (if IsCounted(s.threads[t], slot) then 1 else 0)
          + (if IsCounted(s'.threads[t], slot) then 1 else 0)
  {
    var others := Counted(s, slot) - {t};
    assert Counted(s', slot) - {t} == others;
    assert IsCounted(s.threads[t], slot) ==> Counted(s, slot) == others + {t};
    assert IsCounted(s'.threads[t], slot) ==> Counted(s', slot) == others + {t};
    assert !IsCounted(s.threads[t], slot) ==> Counted(s, slot) == others;
    assert !IsCounted(s'.threads[t], slot) ==> Counted(s', slot) == others;
  }

  // Keys of used slots never change, so what a thread knows about its slot stays true.
  predicate TableGrows(s: System, s': System) {
    && |s'.table| == |s.table|
    && forall i: nat | i < |s.table| && s.table[i].used :: s'.table[i].used && s'.table[i].key == s.table[i].key
  }

  // Writing counters of a used slot keeps the probing structure.
  lemma {:induction false} CountersKeepProbed(t: seq<FutexSlot>, w: nat, i: nat, x: FutexSlot)
    requires Probed(t, w) && i < |t| && t[i].used && x.used && x.key == t[i].key
    ensures Probed(t[i := x], w)
  {
  }

  lemma {:induction false} StepKeepsProbed(s: System, e: Event)
    requires Inv(s) && Enabled(s, e)
    ensures Probed(Next(s, e).table, s.w) && TableGrows(s, Next(s, e))
    ensures forall i: nat | i < |s.table| && !Next(s, e).table[i].used :: Next(s, e).table[i] == EMPTY_SLOT
  {
    match e {
      case Sleep(t, bad) =>
        var slot := s.threads[t].slot;
        CountersKeepProbed(s.table, s.w, slot, Next(s, e).table[slot]);
      case Relock(t) =>
        var slot := s.threads[t].slot;
        CountersKeepProbed(s.table, s.w, slot, Next(s, e).table[slot]);
      case Wake(t, _) =>
        var slot := s.threads[t].slot;
        CountersKeepProbed(s.table, s.w, slot, Next(s, e).table[slot]);
      case _ =>
    }
  }

  // The thread a step moves.
  function Mover(e: Event): nat {
    match e
    case Store(_, _) => 0
    case LookForWait(t, _, _, _, _) => t
    case Lock(t) => t
    case Test(t) => t
    case Sleep(t, _) => t
    case TimeOut(t) => t
    case Relock(t) => t
    case LookForWake(t, _, _, _) => t
    case Wake(t, _) => t
  }

  lemma {:induction false} WakeKeepsCounts(s: System, e: Event, i: nat)
    requires Inv(s) && e.Wake? && Enabled(s, e) && i < |s.table|
    ensures Next(s, e).table[i].waiters == |Counted(Next(s, e), i)|
  {
    var s' := Next(s, e);
    forall r ensures r in Counted(s', i) <==> r in Counted(s, i) {}
    assert Counted(s', i) == Counted(s, i);
  }

  lemma {:induction false} RelockKeepsCounts(s: System, e: Event, i: nat)
    requires Inv(s) && e.Relock? && Enabled(s, e) && i < |s.table|
    ensures Next(s, e).table[i].waiters == |Counted(Next(s, e), i)|
  {
    CountedChange(s, Next(s, e), e.t, i);
    if i == s.threads[e.t].slot { assert e.t in Counted(s, i); }
  }

  lemma {:induction false} StepKeepsCounts(s: System, e: Event, i: nat)
    requires Inv(s) && Enabled(s, e) && i < |s.table|
    ensures |Next(s, e).table| == |s.table| && Next(s, e).table[i].waiters == |Counted(Next(s, e), i)|
  {
    var s' := Next(s, e);
    StepKeepsProbed(s, e);
    if e.Store? {
      assert Counted(s', i) == Counted(s, i);
    } else if e.Wake? {
      WakeKeepsCounts(s, e, i);
    } else if e.Relock? {
      RelockKeepsCounts(s, e, i);
    } else {
      CountedChange(s, s', Mover(e), i);
    }
  }

  // The phase of a thread that does not move survives, unless its own lock is given away.
  lemma {:induction false} OtherPhaseOk(s: System, s': System, r: nat)
    requires r in s.threads && PhaseOk(s, r, s.threads[r]) && TableGrows(s, s')
    requires HoldsLock(s.threads[r]) ==> s.threads[r].slot in s'.holders && s'.holders[s.threads[r].slot] == r
    ensures PhaseOk(s', r, s.threads[r])
  {
  }

  lemma {:induction false} MoverPhaseOk(s: System, e: Event)
    requires Inv(s) && Enabled(s, e) && !e.Store?
    ensures PhaseOk(Next(s, e), Mover(e), Next(s, e).threads[Mover(e)])
  {
    StepKeepsProbed(s, e);
    assert PhaseOk(s, Mover(e), s.threads[Mover(e)]);
  }

  // A step only takes a lock that is free and only drops the lock of the thread that moves.
  lemma {:induction false} LocksAreKept(s: System, e: Event, r: nat)
    requires Inv(s) && Enabled(s, e) && r in s.threads && HoldsLock(s.threads[r])
    requires e.Store? || r != Mover(e)
    ensures var slot := s.threads[r].slot; slot in Next(s, e).holders && Next(s, e).holders[slot] == r
  {
    assert PhaseOk(s, r, s.threads[r]);
    if !e.Store? { assert PhaseOk(s, Mover(e), s.threads[Mover(e)]); }
  }

  lemma {:induction false} StepKeepsPhases(s: System, e: Event, r: nat)
    requires Inv(s) && Enabled(s, e) && r in Next(s, e).threads
    ensures PhaseOk(Next(s, e), r, Next(s, e).threads[r])
  {
    StepKeepsProbed(s, e);
    if !e.Store? && r == Mover(e) {
      MoverPhaseOk(s, e);
    } else {
      assert PhaseOk(s, r, s.threads[r]);
      if HoldsLock(s.threads[r]) { LocksAreKept(s, e, r); }
      OtherPhaseOk(s, Next(s, e), r);
    }
  }

  /** Every step of every thread keeps each slot's `waiters` equal to the number of threads it stands for. */
  lemma {:induction false} StepKeeps(s: System, e: Event)
    requires Inv(s) && Enabled(s, e)
    ensures Inv(Next(s, e))
  {
    StepKeepsProbed(s, e);
    forall i: nat | i < |s.table| ensures Next(s, e).table[i].waiters == |Counted(Next(s, e), i)| {
      StepKeepsCounts(s, e, i);
    }
    forall r | r in Next(s, e).threads ensures PhaseOk(Next(s, e), r, Next(s, e).threads[r]) {
      StepKeepsPhases(s, e, r);
    }
  }

  // ---------------------------------------------------------------- every run

  predicate Initial(s: System) {
    && |s.table| > 0 && (forall i | 0 <= i < |s.table| :: s.table[i] == EMPTY_SLOT)
    && (forall t | t in s.threads :: s.threads[t] == Idle) && s.holders == map[]
  }

  ghost predicate Runs(s: System, es: seq<Event>)
    decreases |es|
  {
    es == [] || (Enabled(s, es[0]) && Runs(Next(s, es[0]), es[1..]))
  }

  ghost function After(s: System, es: seq<Event>): System
    requires Runs(s, es)
    decreases |es|
  {
    if es == [] then s else After(Next(s, es[0]), es[1..])
  }

  lemma {:induction false} InitialInv(s: System)
    requires Initial(s) && |s.table| == Bits.Pow2(s.w)
    ensures Inv(s)
  {
    forall i: nat | i < |s.table| ensures |Counted(s, i)| == 0 { assert Counted(s, i) == {}; }
  }

  lemma {:induction false} RunKeeps(s: System, es: seq<Event>)
    requires Inv(s) && Runs(s, es)
    ensures Inv(After(s, es))
    decreases |es|
  {
    if es != [] {
      StepKeeps(s, es[0]);
      RunKeeps(Next(s, es[0]), es[1..]);
    }
  }

  // ---------------------------------------------------------------- no wake is lost

  function Waiting(s: System, u: nat): set<nat> {
    set t | t in s.threads && Waits(s.threads[t], u)
  }

  /** When a wake on u gets the slot lock, `waiters` counts every thread that passed its test on u and is not back. */
  lemma {:induction false} WakeSeesEveryWaiter(s: System, e: Event)
    requires Inv(s) && e.Wake? && Enabled(s, e)
    ensures
      var p := s.threads[e.t];
      Counted(s, p.slot) == Waiting(s, p.u) && s.table[p.slot].waiters == |Waiting(s, p.u)|
  {
    var p := s.threads[e.t];
    assert PhaseOk(s, e.t, p);
    forall r | r in s.threads ensures r in Counted(s, p.slot) <==> r in Waiting(s, p.u) {
      assert PhaseOk(s, r, s.threads[r]);
    }
  }

  /** A wake that finds no slot has nobody to wake: no thread has even looked the word up for a wait. */
  lemma {:induction false} NoSlotNoWaiter(s: System, e: Event, r: nat)
    requires Inv(s) && e.LookForWake? && Enabled(s, e) && e.found < 0 && r in s.threads
    ensures s.threads[r].Idle? || s.threads[r].u != e.u
    ensures !Waits(s.threads[r], e.u)
  {
    var p := s.threads[r];
    assert PhaseOk(s, r, p);
    if !p.Idle? { assert p.u in Keys(s.table); }
  }

  lemma {:induction false} SubsetOfSameSize(a: set<nat>, b: set<nat>)
    requires a <= b
    ensures |a| <= |b| && (|a| == |b| ==> a == b)
  {
    var rest := b - a;
    assert b == a + rest;
    if |a| == |b| { assert rest == {}; }
  }

  // Off the queue, but not yet back with the lock to take itself off the count.
  predicate IsAwake(p: Phase, slot: nat) { p.Awake? && p.slot == slot }

  lemma {:induction false} CountedAreAsleepOrAwake(s: System, slot: nat)
    ensures |Counted(s, slot)| >= |Sleepers(s, slot)|
    ensures |Counted(s, slot)| > |Sleepers(s, slot)| <==> exists r :: r in s.threads && IsAwake(s.threads[r], slot)
  {
    var awake := set t | t in s.threads && IsAwake(s.threads[t], slot);
    assert Counted(s, slot) == Sleepers(s, slot) + awake && Sleepers(s, slot) * awake == {};
    if exists r :: r in s.threads && IsAwake(s.threads[r], slot) {
      var r :| r in s.threads && IsAwake(s.threads[r], slot);
      assert r in awake;
    } else {
      assert awake == {};
    }
  }

  /**
   A wake wakes as many sleepers as were asked for, or all of them.  The number it returns is larger exactly
   if it asks for more than sleep and some thread that is counted is already awake, its time-out being over.
   */
  lemma {:induction false} WakeWakesEnough(s: System, e: Event)
    requires Inv(s) && e.Wake? && Enabled(s, e) && s.threads[e.t].requested > 0
    ensures
      var p := s.threads[e.t];
      var sleeping, returned := |Sleepers(s, p.slot)|, WakeCount(s.table[p.slot], p.requested);
      && |e.woken| == Min(p.requested, sleeping) <= returned
      && (returned > |e.woken| <==>
            p.requested > sleeping && exists r :: r in s.threads && IsAwake(s.threads[r], p.slot))
      && (p.requested >= s.table[p.slot].waiters ==> e.woken == Sleepers(s, p.slot))
  {
    var p := s.threads[e.t];
    CountedAreAsleepOrAwake(s, p.slot);
    SubsetOfSameSize(e.woken, Sleepers(s, p.slot));
  }

  // Nobody is asleep on u, or about to go to sleep on it, because of the value `val`.
  ghost predicate NobodyHeld(s: System, u: nat, val: int) {
    forall t | t in s.threads && (s.threads[t].Tested? || s.threads[t].Asleep?) ::
      s.threads[t].u != u || s.threads[t].val != val
  }

  lemma {:induction false} WakeAllReleases(s: System, e: Event, val: int)
    requires Inv(s) && e.Wake? && Enabled(s, e)
    requires s.threads[e.t].requested > 0 && s.threads[e.t].requested >= s.table[s.threads[e.t].slot].waiters
    ensures NobodyHeld(Next(s, e), s.threads[e.t].u, val)
  {
    WakeSeesEveryWaiter(s, e);
    WakeWakesEnough(s, e);
    var u := s.threads[e.t].u;
    var s' := Next(s, e);
    forall t | t in s'.threads && (s'.threads[t].Tested? || s'.threads[t].Asleep?) ensures s'.threads[t].u != u {
      assert s'.threads[t] == s.threads[t];
      assert s'.threads[t].u == u ==> t in Waiting(s, u);
    }
  }

  lemma {:induction false} StaysReleased(s: System, e: Event, u: nat, val: int)
    requires Enabled(s, e) && NobodyHeld(s, u, val)
    requires u in s.words && s.words[u] != val
    ensures NobodyHeld(Next(s, e), u, val)
  {
  }

  // The word u differs from val in every state the run passes through.
  ghost predicate NeverValue(s: System, es: seq<Event>, u: nat, val: int)
    requires Runs(s, es)
    decreases |es|
  {
    u in s.words && s.words[u] != val && (es != [] ==> NeverValue(Next(s, es[0]), es[1..], u, val))
  }

  lemma {:induction false} StaysReleasedOverRun(s: System, es: seq<Event>, u: nat, val: int)
    requires Runs(s, es) && NobodyHeld(s, u, val) && NeverValue(s, es, u, val)
    ensures NobodyHeld(After(s, es), u, val)
    decreases |es|
  {
    if es != [] {
      StaysReleased(s, es[0], u, val);
      StaysReleasedOverRun(Next(s, es[0]), es[1..], u, val);
    }
  }

  /**
   No missed wake-up: once the word has been moved away from `val` and a wake for everyone has run,
   no thread is left asleep on the old value, whatever the threads do for as long as the word stays away from it.
   */
  lemma {:induction false} NoMissedWake(s: System, wake: Event, es: seq<Event>, val: int)
    requires Inv(s) && wake.Wake? && Enabled(s, wake)
    requires s.threads[wake.t].requested > 0 && s.threads[wake.t].requested >= s.table[s.threads[wake.t].slot].waiters
    requires Runs(Next(s, wake), es) && NeverValue(Next(s, wake), es, s.threads[wake.t].u, val)
    ensures NobodyHeld(After(Next(s, wake), es), s.threads[wake.t].u, val)
  {
    WakeAllReleases(s, wake, val);
    StaysReleasedOverRun(Next(s, wake), es, s.threads[wake.t].u, val);
  }

  // ---------------------------------------------------------------- a wake that wakes nobody

  // Thread 1 waits on word 8 with a time-out, which runs out; thread 2 wakes the word.
  function Example(slot: FutexSlot, waiter: Phase, waker: Phase, held: bool): System {
    System(0, [slot], map[8 := 5], map[1 := waiter, 2 := waker], if held then map[0 := 1] else map[])
  }

  const EXAMPLE_RUN: seq<Event> :=
    [LookForWait(1, 8, 5, true, 0), Lock(1), Test(1), Sleep(1, false), TimeOut(1), LookForWake(2, 8, 1, 0)]

  ghost predicate Reaches(s: System, es: seq<Event>, t: System) {
    Runs(s, es) && After(s, es) == t
  }

  lemma {:induction false} ReachesLater(s: System, e: Event, t: System, es: seq<Event>, u: System)
    requires Enabled(s, e) && Next(s, e) == t && Reaches(t, es, u)
    ensures Reaches(s, [e] + es, u)
  {
    var all := [e] + es;
    assert all[0] == e && all[1..] == es;
  }

  lemma {:induction false} ExampleFinds(slot: FutexSlot, waiter: Phase, waker: Phase, create: bool)
    requires (slot == EMPTY_SLOT && create) || (slot.used && slot.key == 8)
    ensures Finds(Example(slot, waiter, waker, false), 8, create, 0)
  {
    var s := Example(slot, waiter, waker, false);
    assert s.table[0] == slot;
    if slot.used { assert s.table[0].key in Keys(s.table); } else { assert Keys(s.table) == {}; }
  }

  // Thread 1 awake but still counted, thread 2 about to wake the word.
  function ExampleEnd(): System {
    Example(Entered(NewSlot(8)), Awake(8, 5, 0, true, true), Waking(8, 1, 0), false)
  }

  lemma {:induction false} ExampleWakes()
    ensures Reaches(
      Example(Entered(NewSlot(8)), Awake(8, 5, 0, true, true), Idle, false), [LookForWake(2, 8, 1, 0)], ExampleEnd())
  {
    var s := Example(Entered(NewSlot(8)), Awake(8, 5, 0, true, true), Idle, false);
    assert Reaches(ExampleEnd(), [], ExampleEnd());
    ExampleFinds(Entered(NewSlot(8)), Awake(8, 5, 0, true, true), Idle, false);
    ReachesLater(s, LookForWake(2, 8, 1, 0), ExampleEnd(), [], ExampleEnd());
  }

  lemma {:induction false} ExampleTimesOut()
    ensures Reaches(
      Example(Entered(NewSlot(8)), Asleep(8, 5, 0, true), Idle, false),
      [TimeOut(1), LookForWake(2, 8, 1, 0)], ExampleEnd())
  {
    var es := [LookForWake(2, 8, 1, 0)];
    ExampleWakes();
    ReachesLater(
      Example(Entered(NewSlot(8)), Asleep(8, 5, 0, true), Idle, false), TimeOut(1),
      Example(Entered(NewSlot(8)), Awake(8, 5, 0, true, true), Idle, false), es, ExampleEnd());
    assert [TimeOut(1)] + es == [TimeOut(1), LookForWake(2, 8, 1, 0)];
  }

  lemma {:induction false} ExampleSleeps()
    ensures Reaches(
      Example(NewSlot(8), Tested(8, 5, 0, true), Idle, true),
      [Sleep(1, false), TimeOut(1), LookForWake(2, 8, 1, 0)], ExampleEnd())
  {
    var es := [TimeOut(1), LookForWake(2, 8, 1, 0)];
    ExampleTimesOut();
    ReachesLater(
      Example(NewSlot(8), Tested(8, 5, 0, true), Idle, true), Sleep(1, false),
      Example(Entered(NewSlot(8)), Asleep(8, 5, 0, true), Idle, false), es, ExampleEnd());
    assert [Sleep(1, false)] + es == [Sleep(1, false), TimeOut(1), LookForWake(2, 8, 1, 0)];
  }

  lemma {:induction false} ExampleTests()
    ensures Reaches(
      Example(NewSlot(8), Locked(8, 5, 0, true), Idle, true),
      [Test(1), Sleep(1, false), TimeOut(1), LookForWake(2, 8, 1, 0)], ExampleEnd())
  {
    var es := [Sleep(1, false), TimeOut(1), LookForWake(2, 8, 1, 0)];
    ExampleSleeps();
    ReachesLater(
      Example(NewSlot(8), Locked(8, 5, 0, true), Idle, true), Test(1),
      Example(NewSlot(8), Tested(8, 5, 0, true), Idle, true), es, ExampleEnd());
    assert [Test(1)] + es == [Test(1), Sleep(1, false), TimeOut(1), LookForWake(2, 8, 1, 0)];
  }

  lemma {:induction false} ExampleLocks()
    ensures Reaches(
      Example(NewSlot(8), Looked(8, 5, 0, true), Idle, false),
      [Lock(1), Test(1), Sleep(1, false), TimeOut(1), LookForWake(2, 8, 1, 0)], ExampleEnd())
  {
    var es := [Test(1), Sleep(1, false), TimeOut(1), LookForWake(2, 8, 1, 0)];
    ExampleTests();
    ReachesLater(
      Example(NewSlot(8), Looked(8, 5, 0, true), Idle, false), Lock(1),
      Example(NewSlot(8), Locked(8, 5, 0, true), Idle, true), es, ExampleEnd());
    assert [Lock(1)] + es == [Lock(1), Test(1), Sleep(1, false), TimeOut(1), LookForWake(2, 8, 1, 0)];
  }

  lemma {:induction false} ExampleRuns()
    ensures Reaches(Example(EMPTY_SLOT, Idle, Idle, false), EXAMPLE_RUN, ExampleEnd())
  {
    var es := [Lock(1), Test(1), Sleep(1, false), TimeOut(1), LookForWake(2, 8, 1, 0)];
    ExampleLocks();
    ExampleFinds(EMPTY_SLOT, Idle, Idle, true);
    ReachesLater(
      Example(EMPTY_SLOT, Idle, Idle, false), LookForWait(1, 8, 5, true, 0),
      Example(NewSlot(8), Looked(8, 5, 0, true), Idle, false), es, ExampleEnd());
    assert [LookForWait(1, 8, 5, true, 0)] + es == EXAMPLE_RUN;
  }

  /** A run from the start after which a wake for one returns 1 and wakes nobody. */
  lemma {:induction false} WakeCountsTheAwake() returns (s: System)
    ensures Initial(Example(EMPTY_SLOT, Idle, Idle, false))
    ensures Reaches(Example(EMPTY_SLOT, Idle, Idle, false), EXAMPLE_RUN, s)
    ensures 2 in s.threads && s.threads[2] == Waking(8, 1, 0) && |s.table| == 1
    ensures Enabled(s, Wake(2, {})) && WakeCount(s.table[0], 1) == 1
  {
    s := ExampleEnd();
    ExampleRuns();
    assert Sleepers(s, 0) == {};
  }

  // ---------------------------------------------------------------- the registry in memory

  /** A lookup in the registry is a step that the protocol allows, and leaves the table that step leaves. */
  method LookUp(registry: FutexRegistry, key: nat, create: bool, ghost s: System) returns (found: int)
    requires registry.Valid() && s.table == registry.slots[..] && s.w == registry.w
    modifies registry.slots
    ensures Finds(s, key, create, found)
    ensures registry.Valid() && registry.slots[..] == Entering(s, key, found)
  {
    found := registry.SlotGet(key, create);
  }
}
