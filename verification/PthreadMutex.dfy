/**
 Recursive and error-checking mutexes (source/bionic.c) at the grain of single loads and stores.
 `holder` is the host mutex underneath, `owner` and `depth` are the fields of the slot that lock,
 unlock and condition waits read and write in separate steps; the owner is read without the host
 mutex.  Thread ids are the nonzero numbers bionic_gettid returns; 0 means nobody.
 */
module PthreadMutex {
  import opened Common

  const UINT32_MAX: nat := 0xffff_ffff

  // The unsigned ++ and -- of C.
  function Up(d: nat): nat { if d == UINT32_MAX then 0 else d + 1 }
  function Down(d: nat): nat { if d == 0 then UINT32_MAX else d - 1 }

  datatype Kind = Recursive | ErrorCheck

  datatype Code = OK | EDEADLK | EAGAIN | EBUSY | EPERM | BadInput

  // The instruction a thread is about to execute.
  datatype Pc =
    | Idle
    | LockReadOwner(try: bool)
    | LockAgain                  // owner was self: about to look at the type and the depth
    | LockLoadDepth
    | LockStoreDepth(d: nat)     // has loaded d, about to store d + 1
    | LockHost(try: bool)        // owner was not self: about to take the host mutex
    | LockSetDepth
    | LockSetOwner
    | UnlockReadOwner
    | UnlockReadDepth            // about to compare the depth with 0
    | UnlockTestDepth            // about to compare the depth with 1
    | UnlockLoadDepth
    | UnlockStoreDepth(d: nat)
    | UnlockZeroDepth
    | UnlockClearOwner
    | UnlockHost
    | WaitReadOwner
    | WaitReadDepth
    | WaitTestDepth
    | WaitZeroDepth
    | WaitClearOwner
    | WaitSleep                  // about to hand the host mutex to the condition variable
    | WaitAsleep
    | WaitSetDepth
    | WaitSetOwner
    | WaitLoadDepth
    | WaitStoreDepth(d: nat)
    | DeepAsleep                 // waits on the condition variable's own mutex, keeping this one
    | DeepLoadDepth
    | DeepStoreDepth(d: nat)

  datatype Slot = Slot(kind: Kind, holder: nat, owner: nat, depth: nat)

  // `locks` counts the successful locks of each thread that it has not undone yet.
  datatype System = System(m: Slot, pcs: map<nat, Pc>, locks: map<nat, nat>)

  datatype Event =
    | CallLock(t: nat, try: bool)
    | CallUnlock(t: nat)
    | CallWait(t: nat)
    | Run(t: nat)                // the thread executes its next instruction

  // ---------------------------------------------------------------- steps

  predicate Blocked(s: System, t: nat)
    requires t in s.pcs
  {
    && s.m.holder != 0
    && match s.pcs[t]
       case LockHost(try) => !try
       case WaitAsleep => true
       case _ => false
  }

  predicate Enabled(s: System, e: Event) {
    && e.t in s.pcs && e.t in s.locks
    && match e
       case CallLock(t, _) => s.pcs[t] == Idle
       case CallUnlock(t) => s.pcs[t] == Idle
       case CallWait(t) => s.pcs[t] == Idle
       case Run(t) => s.pcs[t] != Idle && !Blocked(s, t)
  }

  // One thread's view: the slot, its next instruction, its count of locks.
  datatype View = View(m: Slot, pc: Pc, locks: nat)
  {
    function To(pc: Pc): View { this.(pc := pc) }
    function Slot(m: Slot): View { this.(m := m) }
  }

  function ViewOf(s: System, t: nat): View
    requires t in s.pcs && t in s.locks
  {
    View(s.m, s.pcs[t], s.locks[t])
  }

  // The instruction v.pc, executed by thread t when it is not blocked.
  function Execute(v: View, t: nat): View {
    var m := v.m;
    match v.pc
    case Idle => v
    case LockReadOwner(try) => v.To(if m.owner == t then LockAgain else LockHost(try))
    case LockAgain =>
      if m.kind == ErrorCheck || m.depth == UINT32_MAX then v.To(Idle) else v.To(LockLoadDepth)
    case LockLoadDepth => v.To(LockStoreDepth(m.depth))
    case LockStoreDepth(d) => View(m.(depth := Up(d)), Idle, v.locks + 1)
    case LockHost(_) =>
      if m.holder == 0 then v.To(LockSetDepth).Slot(m.(holder := t)) else v.To(Idle)
    case LockSetDepth => v.To(LockSetOwner).Slot(m.(depth := 1))
    case LockSetOwner => View(m.(owner := t), Idle, v.locks + 1)
    case UnlockReadOwner => v.To(if m.owner == t then UnlockReadDepth else Idle)
    case UnlockReadDepth => v.To(if m.depth == 0 then Idle else UnlockTestDepth)
    case UnlockTestDepth => v.To(if m.depth > 1 then UnlockLoadDepth else UnlockZeroDepth)
    case UnlockLoadDepth => v.To(UnlockStoreDepth(m.depth))
    case UnlockStoreDepth(d) => View(m.(depth := Down(d)), Idle, Less(v.locks))
    case UnlockZeroDepth => View(m.(depth := 0), UnlockClearOwner, Less(v.locks))
    case UnlockClearOwner => v.To(UnlockHost).Slot(m.(owner := 0))
    case UnlockHost => v.To(Idle).Slot(m.(holder := 0))
    case WaitReadOwner => v.To(if m.owner == t then WaitReadDepth else Idle)
    case WaitReadDepth => v.To(if m.depth == 0 then Idle else WaitTestDepth)
    case WaitTestDepth => v.To(if m.depth == 1 then WaitZeroDepth else WaitLoadDepth)
    case WaitZeroDepth => v.To(WaitClearOwner).Slot(m.(depth := 0))
    case WaitClearOwner => v.To(WaitSleep).Slot(m.(owner := 0))
    case WaitSleep => v.To(WaitAsleep).Slot(m.(holder := 0))
    case WaitAsleep => v.To(WaitSetDepth).Slot(m.(holder := t))
    case WaitSetDepth => v.To(WaitSetOwner).Slot(m.(depth := 1))
    case WaitSetOwner => v.To(Idle).Slot(m.(owner := t))
    case WaitLoadDepth => v.To(WaitStoreDepth(m.depth))
    case WaitStoreDepth(d) => v.To(DeepAsleep).Slot(m.(depth := Down(d)))
    case DeepAsleep => v.To(DeepLoadDepth)
    case DeepLoadDepth => v.To(DeepStoreDepth(m.depth))
    case DeepStoreDepth(d) => v.To(Idle).Slot(m.(depth := Up(d)))
  }

  function NextView(v: View, e: Event): View {
    match e
    case CallLock(t, try) => v.To(LockReadOwner(try))
    case CallUnlock(t) => v.To(UnlockReadOwner)
    case CallWait(t) => v.To(WaitReadOwner)
    case Run(t) => Execute(v, t)
  }

  function Next(s: System, e: Event): System
    requires Enabled(s, e)
  {
    var v := NextView(ViewOf(s, e.t), e);
    System(v.m, s.pcs[e.t := v.pc], s.locks[e.t := v.locks])
  }

  // What the call returns, when this step is its last.
  function Returns(s: System, t: nat): (c: Code)
    requires t in s.pcs
  {
    match s.pcs[t]
    case LockAgain => if s.m.kind == ErrorCheck then EDEADLK else EAGAIN
    case LockHost(_) => EBUSY
    case UnlockReadOwner => EPERM
    case UnlockReadDepth => EPERM
    case WaitReadOwner => BadInput
    case WaitReadDepth => BadInput
    case _ => OK
  }

  predicate LastStep(s: System, t: nat)
    requires Enabled(s, Run(t))
  {
    Next(s, Run(t)).pcs[t] == Idle
  }

  // ---------------------------------------------------------------- the invariant

  predicate Owns(m: Slot, t: nat, n: nat) { m.holder == t && m.owner == t && m.depth == n }

  predicate Free(m: Slot, t: nat) { m.holder != t && m.owner != t }

  predicate ThreadOk(m: Slot, t: nat, pc: Pc, n: nat) {
    match pc
    case Idle => if n > 0 then Owns(m, t, n) else Free(m, t)
    case LockReadOwner(_) => if n > 0 then Owns(m, t, n) else Free(m, t)
    case UnlockReadOwner => if n > 0 then Owns(m, t, n) else Free(m, t)
    case WaitReadOwner => if n > 0 then Owns(m, t, n) else Free(m, t)
    case LockAgain => n > 0 && Owns(m, t, n)
    case LockLoadDepth => 0 < n < UINT32_MAX && m.kind == Recursive && Owns(m, t, n)
    case LockStoreDepth(d) => 0 < n < UINT32_MAX && m.kind == Recursive && Owns(m, t, n) && d == n
    case UnlockReadDepth => n > 0 && Owns(m, t, n)
    case UnlockTestDepth => n > 0 && Owns(m, t, n)
    case UnlockLoadDepth => n > 1 && Owns(m, t, n)
    case UnlockStoreDepth(d) => n > 1 && Owns(m, t, n) && d == n
    case UnlockZeroDepth => n == 1 && Owns(m, t, n)
    case WaitReadDepth => n > 0 && Owns(m, t, n)
    case WaitTestDepth => n > 0 && Owns(m, t, n)
    case WaitZeroDepth => n == 1 && Owns(m, t, n)
    case WaitLoadDepth => n > 1 && Owns(m, t, n)
    case WaitStoreDepth(d) => n > 1 && Owns(m, t, n) && d == n
    case LockHost(_) => n == 0 && Free(m, t)
    case LockSetDepth => n == 0 && m.holder == t && m.owner == 0
    case LockSetOwner => n == 0 && m.holder == t && m.owner == 0 && m.depth == 1
    case UnlockClearOwner => n == 0 && Owns(m, t, 0)
    case UnlockHost => n == 0 && m.holder == t && m.owner == 0 && m.depth == 0
    case WaitClearOwner => n == 1 && Owns(m, t, 0)
    case WaitSleep => n == 1 && m.holder == t && m.owner == 0 && m.depth == 0
    case WaitAsleep => n == 1 && Free(m, t)
    case WaitSetDepth => n == 1 && m.holder == t && m.owner == 0
    case WaitSetOwner => n == 1 && m.holder == t && m.owner == 0 && m.depth == 1
    case DeepAsleep => 1 < n <= UINT32_MAX && Owns(m, t, n - 1)
    case DeepLoadDepth => 1 < n <= UINT32_MAX && Owns(m, t, n - 1)
    case DeepStoreDepth(d) => 1 < n <= UINT32_MAX && Owns(m, t, n - 1) && d == n - 1
  }

  predicate SlotOk(m: Slot) {
    && (m.owner != 0 ==> m.owner == m.holder)
    && (m.holder == 0 ==> m.depth == 0)
    && m.depth <= UINT32_MAX
  }

  ghost predicate Inv(s: System) {
    && s.pcs.Keys == s.locks.Keys && 0 !in s.pcs && SlotOk(s.m)
    && forall t | t in s.pcs :: ThreadOk(s.m, t, s.pcs[t], s.locks[t])
  }

  // A step of t changes the slot only while t holds the host mutex, or takes it while it is free.
  predicate ChangedBy(m: Slot, m': Slot, t: nat) {
    || m' == m
    || (m.holder == 0 && m' == m.(holder := t))
    || (m.holder == t && m'.holder in {0, t} && m'.owner in {0, t})
  }

  predicate Locking(pc: Pc) {
    pc.LockReadOwner? || pc.LockAgain? || pc.LockLoadDepth? || pc.LockStoreDepth? || pc.LockHost?
    || pc.LockSetDepth? || pc.LockSetOwner?
  }

  predicate Unlocking(pc: Pc) {
    pc.UnlockReadOwner? || pc.UnlockReadDepth? || pc.UnlockTestDepth? || pc.UnlockLoadDepth?
    || pc.UnlockStoreDepth? || pc.UnlockZeroDepth? || pc.UnlockClearOwner? || pc.UnlockHost?
  }

  // What the mover of a step has to show for itself.
  predicate MovesWell(v: View, v': View, t: nat) {
    ChangedBy(v.m, v'.m, t) && SlotOk(v'.m) && ThreadOk(v'.m, t, v'.pc, v'.locks)
  }

  lemma {:induction false} LockingMovesWell(v: View, t: nat)
    requires SlotOk(v.m) && t != 0 && ThreadOk(v.m, t, v.pc, v.locks) && Locking(v.pc)
    requires v.m.holder != 0 ==> v.pc != LockHost(false)
    ensures MovesWell(v, Execute(v, t), t)
  {
  }

  lemma {:induction false} UnlockingMovesWell(v: View, t: nat)
    requires SlotOk(v.m) && t != 0 && ThreadOk(v.m, t, v.pc, v.locks) && Unlocking(v.pc)
    ensures MovesWell(v, Execute(v, t), t)
  {
  }

  // A wait on its way to sleep.
  predicate Suspending(pc: Pc) {
    pc.WaitReadOwner? || pc.WaitReadDepth? || pc.WaitTestDepth? || pc.WaitZeroDepth? || pc.WaitClearOwner?
    || pc.WaitSleep? || pc.WaitLoadDepth? || pc.WaitStoreDepth?
  }

  lemma {:induction false} SuspendingMovesWell(v: View, t: nat)
    requires SlotOk(v.m) && t != 0 && ThreadOk(v.m, t, v.pc, v.locks) && Suspending(v.pc)
    ensures MovesWell(v, Execute(v, t), t)
  {
  }

  lemma {:induction false} WaitingMovesWell(v: View, t: nat)
    requires SlotOk(v.m) && t != 0 && ThreadOk(v.m, t, v.pc, v.locks) && !Locking(v.pc) && !Unlocking(v.pc)
    requires v.m.holder != 0 ==> v.pc != WaitAsleep
    ensures MovesWell(v, Execute(v, t), t)
  {
    if Suspending(v.pc) { SuspendingMovesWell(v, t); }
  }

  lemma {:induction false} MoverOk(v: View, e: Event)
    requires SlotOk(v.m) && e.t != 0 && ThreadOk(v.m, e.t, v.pc, v.locks)
    requires e.Run? || v.pc == Idle
    requires e.Run? && v.m.holder != 0 ==> v.pc != LockHost(false) && v.pc != WaitAsleep
    ensures MovesWell(v, NextView(v, e), e.t)
  {
    if e.Run? {
      if Locking(v.pc) {
        LockingMovesWell(v, e.t);
      } else if Unlocking(v.pc) {
        UnlockingMovesWell(v, e.t);
      } else {
        WaitingMovesWell(v, e.t);
      }
    }
  }

  lemma {:induction false} OtherOk(m: Slot, m': Slot, t: nat, r: nat, pc: Pc, n: nat)
    requires ThreadOk(m, r, pc, n) && ChangedBy(m, m', t) && r != t && r != 0
    requires m.owner != 0 ==> m.owner == m.holder
    ensures ThreadOk(m', r, pc, n)
  {
  }

  /** Every load and store of every thread keeps owner, depth and host mutex consistent. */
  lemma {:induction false} StepKeeps(s: System, e: Event)
    requires Inv(s) && Enabled(s, e)
    ensures Inv(Next(s, e))
  {
    var s' := Next(s, e);
    MoverOk(ViewOf(s, e.t), e);
    forall t | t in s'.pcs ensures ThreadOk(s'.m, t, s'.pcs[t], s'.locks[t]) {
      if t != e.t { OtherOk(s.m, s'.m, e.t, t, s.pcs[t], s.locks[t]); }
    }
  }

  predicate Runs(s: System, es: seq<Event>)
    decreases |es|
  {
    es == [] || (Enabled(s, es[0]) && Runs(Next(s, es[0]), es[1..]))
  }

  function After(s: System, es: seq<Event>): System
    requires Runs(s, es)
    decreases |es|
  {
    if es == [] then s else After(Next(s, es[0]), es[1..])
  }

  // bionic_pthread_mutex_init on a mutex nobody uses.
  predicate Initial(s: System) {
    && s.m.holder == 0 && s.m.owner == 0 && s.m.depth == 0 && s.pcs.Keys == s.locks.Keys && 0 !in s.pcs
    && forall t | t in s.pcs :: s.pcs[t] == Idle && s.locks[t] == 0
  }

  lemma {:induction false} RunKeeps(s: System, es: seq<Event>)
    requires (Initial(s) || Inv(s)) && Runs(s, es)
    ensures Inv(After(s, es))
    decreases |es|
  {
    if es != [] {
      StepKeeps(s, es[0]);
      RunKeeps(Next(s, es[0]), es[1..]);
    }
  }

  // ---------------------------------------------------------------- what callers rely on

  // Thread t is between a lock that succeeded and the matching unlock, and not suspended in a wait.
  predicate InCriticalSection(s: System, t: nat) {
    t in s.pcs && t in s.locks && s.locks[t] > 0 && s.pcs[t] != WaitAsleep
  }

  /** At most one thread is inside, and it holds the host mutex. */
  lemma {:induction false} MutualExclusion(s: System, t: nat, r: nat)
    requires Inv(s) && InCriticalSection(s, t)
    ensures s.m.holder == t
    ensures InCriticalSection(s, r) ==> r == t
  {
    assert ThreadOk(s.m, t, s.pcs[t], s.locks[t]);
    if InCriticalSection(s, r) { assert ThreadOk(s.m, r, s.pcs[r], s.locks[r]); }
  }

  /** The owner test needs no lock: a thread reads its own id there exactly when it has locks to undo. */
  lemma {:induction false} UnlockedOwnerTestIsSound(s: System, t: nat)
    requires Inv(s) && t in s.pcs
    requires s.pcs[t].LockReadOwner? || s.pcs[t] == UnlockReadOwner || s.pcs[t] == WaitReadOwner
    ensures s.m.owner == t <==> s.locks[t] > 0
    ensures s.m.owner == t ==> s.m.holder == t && s.m.depth == s.locks[t]
  {
    assert ThreadOk(s.m, t, s.pcs[t], s.locks[t]);
  }

  /** What a call returns says exactly how many locks the thread held and what happened to them. */
  lemma {:induction false} ReturnCodes(s: System, t: nat)
    requires Inv(s) && Enabled(s, Run(t)) && LastStep(s, t)
    ensures
      var n, n', m' := s.locks[t], Next(s, Run(t)).locks[t], Next(s, Run(t)).m;
      match Returns(s, t)
      case EDEADLK => n > 0 && n' == n && s.m.kind == ErrorCheck
      case EAGAIN => n == UINT32_MAX && n' == n && s.m.kind == Recursive
      case EBUSY => n == 0 && n' == 0 && s.m.holder != 0 && s.m.holder != t
      case EPERM => n == 0 && n' == 0
      case BadInput => n == 0 && n' == 0
      case OK =>
        match s.pcs[t]
        case LockStoreDepth(_) => n > 0 && n' == n + 1 && Owns(m', t, n')
        case LockSetOwner => n == 0 && n' == 1 && Owns(m', t, 1)
        case UnlockStoreDepth(_) => n > 1 && n' == n - 1 && Owns(m', t, n')
        case UnlockHost => n' == 0 && m'.holder == 0 && m'.owner == 0
        case _ => n > 0 && n' == n && Owns(m', t, n)
  {
    assert ThreadOk(s.m, t, s.pcs[t], s.locks[t]);
  }

  lemma {:induction false} AtMostOne(s: System, es: seq<Event>, t: nat)
    requires (Initial(s) || Inv(s)) && s.m.kind == ErrorCheck && Runs(s, es) && t in s.locks && s.locks[t] <= 1
    ensures t in After(s, es).locks && After(s, es).locks[t] <= 1
    decreases |es|
  {
    if es != [] {
      assert es[0].t in s.pcs ==> ThreadOk(s.m, es[0].t, s.pcs[es[0].t], s.locks[es[0].t]);
      StepKeeps(s, es[0]);
      AtMostOne(Next(s, es[0]), es[1..], t);
    }
  }

  /** An error-checking mutex is never held twice. */
  lemma {:induction false} ErrorCheckDepth(s: System, es: seq<Event>, t: nat)
    requires Initial(s) && s.m.kind == ErrorCheck && Runs(s, es) && t in s.locks
    ensures t in After(s, es).locks && After(s, es).locks[t] <= 1
  {
    AtMostOne(s, es, t);
  }

  // ---------------------------------------------------------------- condition waits

  // Thread t does nothing in this run but wait on condition variables.
  predicate OnlyWaits(es: seq<Event>, t: nat) {
    forall i | 0 <= i < |es| && es[i].t == t :: es[i].CallWait? || es[i].Run?
  }

  predicate Deep(pc: Pc) { pc.DeepAsleep? || pc.DeepLoadDepth? || pc.DeepStoreDepth? }

  predicate Waiting(pc: Pc) {
    !Locking(pc) && !Unlocking(pc)
  }

  lemma {:induction false} WaitingGoesOn(v: View, t: nat)
    requires Waiting(v.pc)
    ensures Waiting(Execute(v, t).pc) && Execute(v, t).locks == v.locks
  {
  }

  lemma {:induction false} WaitStep(s: System, e: Event, t: nat)
    requires Inv(s) && Enabled(s, e) && t in s.pcs && Waiting(s.pcs[t])
    requires e.t == t ==> e.CallWait? || e.Run?
    ensures
      var s' := Next(s, e);
      t in s'.pcs && t in s'.locks && Waiting(s'.pcs[t]) && s'.locks[t] == s.locks[t]
  {
    WaitingGoesOn(ViewOf(s, t), t);
  }

  /**
   A condition wait gives back what it suspended: whatever the other threads do meanwhile, a
   thread that has returned from its waits owns the mutex at the depth it had before them.
   */
  lemma {:induction false} WaitRestoresOwnership(s: System, es: seq<Event>, t: nat)
    requires Inv(s) && Runs(s, es) && OnlyWaits(es, t)
    requires t in s.pcs && s.locks[t] > 0 && Waiting(s.pcs[t])
    ensures
      var s' := After(s, es);
      t in s'.pcs && t in s'.locks && s'.locks[t] == s.locks[t] && (s'.pcs[t] == Idle ==> Owns(s'.m, t, s.locks[t]))
    decreases |es|
  {
    assert ThreadOk(s.m, t, s.pcs[t], s.locks[t]);
    if es != [] {
      StepKeeps(s, es[0]);
      WaitStep(s, es[0], t);
      WaitRestoresOwnership(Next(s, es[0]), es[1..], t);
    }
  }

  /** A wait at depth 2 or more keeps the host mutex: nobody else gets in until it returns. */
  lemma {:induction false} DeepWaitKeepsHost(s: System, e: Event, t: nat)
    requires Inv(s) && t in s.pcs && Deep(s.pcs[t]) && Enabled(s, e)
    ensures Next(s, e).m.holder == t && t in Next(s, e).pcs
    ensures e.t != t && e.Run? && s.pcs[e.t].LockHost? ==> s.pcs[e.t].try && Next(s, e).pcs[e.t] == Idle
  {
    assert ThreadOk(s.m, t, s.pcs[t], s.locks[t]);
    assert ThreadOk(s.m, e.t, s.pcs[e.t], s.locks[e.t]);
  }

  /** A wait at depth 1 leaves the mutex free for others while it sleeps. */
  lemma {:induction false} ShallowWaitReleases(s: System, t: nat)
    requires Inv(s) && Enabled(s, Run(t)) && s.pcs[t] == WaitSleep
    ensures var m := Next(s, Run(t)).m; m.holder == 0 && m.owner == 0 && m.depth == 0
  {
    assert ThreadOk(s.m, t, s.pcs[t], s.locks[t]);
  }
}
