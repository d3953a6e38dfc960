/**
 What callers of the pipes in source/fakefd.c can rely on: readiness answers agree with what a
 non-blocking call would do, descriptors are handed out lowest first, dup2 replaces its target,
 and no sleeping read or write misses the change it waits for.
 */
module PipeSafety {
  import opened Common
  import opened PipeModel
  import opened PipeProtocol

  function MadeNonblocking<P>(f: Fds<P>, slot: nat): Fds<P>
    requires slot < |f.entries|
  {
    f.(entries := f.entries[slot := f.entries[slot].(statusFlags := f.entries[slot].statusFlags + {NONBLOCK})])
  }

  /**
   A descriptor is reported readable exactly when a non-blocking read of at least one byte returns
   a count, writable exactly when a non-blocking write of at least one byte does, and in error
   exactly when both would fail for good.
   */
  lemma {:induction false} ReadinessAgrees<P>(f: Fds<P>, slot: nat, count: nat, src: seq<Byte>)
    requires Accounted(f) && slot < FD_COUNT && count > 0 && src != []
    ensures
      var ready, g := Readiness(f, slot), MadeNonblocking(f, slot);
      var read, write := ReadEnter(g, slot, count).outcome, WriteEnter(g, slot, src).outcome;
      && (ready.readable <==> read.Done?)
      && (ready.writable <==> write.Done?)
      && (ready.error <==> read == Fail(EBADF) && write in {Fail(EBADF), Fail(EPIPE)})
      && !read.Sleep? && !write.Sleep?
  {
  }

  /** Hang-up means that no descriptor of the other end is open any more. */
  lemma {:induction false} HangupMeansOtherEndGone<P>(f: Fds<P>, slot: nat)
    requires Accounted(f) && slot < FD_COUNT && IsOpen(f.entries[slot])
    ensures Readiness(f, slot).hangup <==>
      forall i | 0 <= i < FD_COUNT && f.entries[i].pipe == f.entries[slot].pipe ::
        f.entries[i].kind == f.entries[slot].kind
  {
    var p, kind := f.entries[slot].pipe.value, f.entries[slot].kind;
    var other := if kind == PipeRead then PipeWrite else PipeRead;
    if Count(f.entries, other, p) > 0 {
      var i := CountWitness(f.entries, other, p);
    } else {
      forall i | 0 <= i < FD_COUNT && f.entries[i].pipe == Some(p) ensures f.entries[i].kind == kind {
        if f.entries[i].kind == other { CountPositive(f.entries, i, other, p); }
      }
    }
  }

  /** A read that neither fails nor sleeps returns nothing only at the end of the stream. */
  lemma {:induction false} ZeroMeansEnd<P>(f: Fds<P>, slot: nat, count: nat)
    requires Accounted(f) && slot < FD_COUNT && count > 0 && ReadEnter(f, slot, count).outcome == Done(0)
    ensures Refers(f, slot, PipeRead)
    ensures var p := f.entries[slot].pipe.value;
      f.pipes[p].contents == [] && forall i | 0 <= i < FD_COUNT :: !Names(f, i, PipeWrite, p)
  {
    var p := f.entries[slot].pipe.value;
    forall i | 0 <= i < FD_COUNT ensures !Names(f, i, PipeWrite, p) {
      if Names(f, i, PipeWrite, p) { CountPositive(f.entries, i, PipeWrite, p); }
    }
  }

  predicate FreeAt<P>(f: Fds<P>, fd: int) {
    SlotOf(fd) >= 0 && SlotOf(fd) < |f.entries| && f.entries[SlotOf(fd)].kind == Unused
  }

  /** dup takes the lowest free descriptor at or above the minimum, and fails only if there is none. */
  lemma {:induction false} DupTakesLowest<P>(f: Fds<P>, slot: nat, minimumFd: int, cloexec: bool)
    requires Accounted(f) && Open(f, slot)
    ensures
      var (g, fd) := Duplicating(f, slot, minimumFd, cloexec);
      && (fd < 0 ==> fd == -1 && g == f && forall d | d >= minimumFd :: !FreeAt(f, d))
      && (fd >= 0 ==>
            && fd >= minimumFd && FreeAt(f, fd) && (forall d | minimumFd <= d < fd :: !FreeAt(f, d))
            && g.entries[SlotOf(fd)].kind == f.entries[slot].kind && g.entries[SlotOf(fd)].pipe == f.entries[slot].pipe
            && g.entries[SlotOf(fd)].statusFlags == f.entries[slot].statusFlags
            && g.entries[SlotOf(fd)].fdFlags
                 == (if cloexec then f.entries[slot].fdFlags + {CLOEXEC} else f.entries[slot].fdFlags))
  {
    var first := FirstSlot(minimumFd);
    forall d | d >= minimumFd && SlotOf(d) >= 0 ensures SlotOf(d) >= first {}
    if first < FD_COUNT {
      FreeFromLowest(f.entries, first);
      var r := FreeFrom(f.entries, first);
      forall d | d >= minimumFd && (r < 0 || d < FD_BASE + r) ensures !FreeAt(f, d) {
        if SlotOf(d) >= 0 { assert first <= SlotOf(d) < |f.entries|; }
      }
    }
  }

  // dup2 when no other thread comes between its two halves.
  function Dup2<P>(f: Fds<P>, source: nat, target: nat): (Fds<P>, int)
    requires source < |f.entries| && target < |f.entries|
    requires forall i | 0 <= i < |f.entries| && IsOpen(f.entries[i]) :: f.entries[i].pipe.value in f.pipes
  {
    var g := if IsOpen(f.entries[target]) then Closing(f, target) else f;
    if Open(g, source) then CloneInto(g, g.entries[source], target, false) else (g, -1)
  }

  /**
   dup2 makes the target a second name of the source's end of its pipe and touches no other
   descriptor; it fails exactly when the source is closed, and even then the target gets closed.
   */
  lemma {:induction false} Dup2Replaces<P>(f: Fds<P>, source: nat, target: nat)
    requires Accounted(f) && source < FD_COUNT && target < FD_COUNT && source != target
    ensures
      var (g, fd) := Dup2(f, source, target);
      && Accounted(g)
      && g.entries == f.entries[target := if IsOpen(f.entries[source]) then f.entries[source] else Zeroed()]
      && fd == if IsOpen(f.entries[source]) then FD_BASE + target else -1
  {
    var g := if IsOpen(f.entries[target]) then Closing(f, target) else f;
    if IsOpen(f.entries[target]) { ClosingKeeps(f, target); }
    if Open(g, source) { CloneKeeps(g, source, target, false); }
  }

  // ---------------------------------------------------------------- sleepers

  // What keeps a read or a write asleep, whatever its flags.
  predicate Blocked<P>(f: Fds<P>, w: Sleeper<P>) {
    && w.slot < |f.entries| && w.p in f.pipes
    && match w
       case Reading(slot, p, _) => Names(f, slot, PipeRead, p) && f.pipes[p].contents == [] && f.pipes[p].writers != 0
       case Writing(slot, p, _, _) =>
         Names(f, slot, PipeWrite, p) && |f.pipes[p].contents| >= CAPACITY && f.pipes[p].readers != 0
  }

  // The sections that wake every sleeper.
  predicate Wakes<P(==)>(s: System<P>, e: Event<P>)
    requires Enabled(s, e)
  {
    match e
    case Read(_, _, _) => ReadOf(s, e).bytes != []
    case ResumeRead(_) => ReadOf(s, e).bytes != []
    case Write(_, _, _) => WriteOf(s, e).bytes != []
    case ResumeWrite(_) => WriteOf(s, e).bytes != []
    case Close(_) => true
    case _ => false
  }

  /** A call goes to sleep only when it has something to wait for. */
  lemma {:induction false} SleepsOnlyWhenBlocked<P>(s: System<P>, e: Event<P>)
    requires Accounted(s.f) && Enabled(s, e) && Moves(e)
    requires e.c in Next(s, e).sleepers
    ensures Blocked(Next(s, e).f, Next(s, e).sleepers[e.c])
  {
    var t := Next(s, e);
    if e.Write? || e.ResumeWrite? {
      WriteStep(s, e);
      var w := t.sleepers[e.c];
      assert Touched(s, e) == Some(w.p);
    }
  }

  // A section that moves no bytes leaves the table as it was.
  lemma {:induction false} QuietMoves<P>(s: System<P>, e: Event<P>)
    requires Enabled(s, e) && Moves(e) && !Wakes(s, e)
    ensures Next(s, e).f == s.f
  {
    if Touched(s, e).Some? {
      var p := Touched(s, e).value;
      if e.Read? || e.ResumeRead? { ReadStep(s, e); } else { WriteStep(s, e); }
      assert s.f.pipes[p].contents == Next(s, e).f.pipes[p].contents;
      assert s.f.pipes[p := s.f.pipes[p]] == s.f.pipes;
    } else if e.Read? || e.ResumeRead? { ReadStep(s, e); } else { WriteStep(s, e); }
  }

  lemma {:induction false} CloneLeavesBlocked<P>(f: Fds<P>, source: nat, target: int, cloexec: bool, w: Sleeper<P>)
    requires Open(f, source) && Blocked(f, w)
    ensures Blocked(CloneInto(f, f.entries[source], target, cloexec).0, w)
  {
  }

  lemma {:induction false} PipingLeavesBlocked<P>(f: Fds<P>, p: P, w: Sleeper<P>)
    requires Accounted(f) && p !in f.pipes && PipeSlots(f).0 >= 0 && PipeSlots(f).1 >= 0 && Blocked(f, w)
    ensures Blocked(Piping(f, p), w)
  {
    PipeTakesLowestTwo(f);
  }

  /** A blocked call stays blocked until a section that wakes it: no change it waits for goes unannounced. */
  lemma {:induction false} BlockedUntilWoken<P>(s: System<P>, e: Event<P>, w: Sleeper<P>)
    requires Accounted(s.f) && Enabled(s, e) && Blocked(s.f, w) && !Wakes(s, e)
    ensures Blocked(Next(s, e).f, w)
  {
    match e {
      case MakePipe(p) => PipingLeavesBlocked(s.f, p, w);
      case Duplicate(slot, minimumFd, cloexec) =>
        CloneLeavesBlocked(s.f, slot, AllocSlot(s.f.entries, minimumFd), cloexec, w);
      case Clone(source, target) => CloneLeavesBlocked(s.f, source, target, false, w);
      case SetFlags(_, _, _) =>
      case _ => QuietMoves(s, e);
    }
  }

  // No event of the run wakes anybody.
  predicate Quiet<P(==)>(s: System<P>, es: seq<Event<P>>)
    requires Runs(s, es)
    decreases |es|
  {
    es == [] || (!Wakes(s, es[0]) && Quiet(Next(s, es[0]), es[1..]))
  }

  /** Over any run that wakes nobody a sleeping call is still blocked at the end: it has missed nothing. */
  lemma {:induction false} BlockedOverQuietRun<P>(s: System<P>, es: seq<Event<P>>, w: Sleeper<P>)
    requires Accounted(s.f) && Runs(s, es) && Quiet(s, es) && Blocked(s.f, w)
    ensures Blocked(After(s, es).f, w)
    decreases |es|
  {
    if es != [] {
      BlockedUntilWoken(s, es[0], w);
      StepKeeps(s, es[0]);
      BlockedOverQuietRun(Next(s, es[0]), es[1..], w);
    }
  }

  /** A blocked call that is resumed stays asleep if it may block, and otherwise returns at once. */
  lemma {:induction false} ResumedSleeps<P>(f: Fds<P>, w: Sleeper<P>)
    requires Accounted(f) && w.slot < FD_COUNT && (w.Writing? ==> w.total < |w.src|)
    ensures
      var outcome := if w.Reading? then ReadResume(f, w.slot, w.p, w.count).outcome
                     else WriteResume(f, w.slot, w.p, w.src, w.total).outcome;
      && (w.Reading? ==> (outcome.Sleep? <==> Blocked(f, w) && !Nonblocking(f.entries[w.slot])))
      && (Blocked(f, w) && !Nonblocking(f.entries[w.slot]) ==> outcome.Sleep?)
      && (Blocked(f, w) && Nonblocking(f.entries[w.slot]) ==>
            outcome == if w.Writing? && w.total > 0 then Done(w.total) else Fail(EAGAIN))
      && (outcome == Fail(EBADF) <==> !Names(f, w.slot, if w.Reading? then PipeRead else PipeWrite, w.p))
  {
  }
}
