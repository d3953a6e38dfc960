/**
 What reads and writes return, in terms of the bytes they move: section by section, and summed over a
 whole call that sleeps in between.
 */
module PipeCalls {
  import opened Common
  import opened PipeModel
  import opened PipeProtocol
  import PipeSafety

  // ---------------------------------------------------------------- one section

  // Only the contents of pipe p differ between f and g: they were `before` and are `after`.
  predicate Changes<P(==)>(f: Fds<P>, g: Fds<P>, p: P, before: seq<Byte>, after: seq<Byte>) {
    && p in f.pipes && f.pipes[p].contents == before
    && g == f.(pipes := f.pipes[p := f.pipes[p].(contents := after)])
  }

  // The first n bytes of the pipe were taken out and handed over: as many as there are, but no more than asked for.
  predicate Delivers<P(==)>(f: Fds<P>, g: Fds<P>, p: P, count: nat, n: nat, got: seq<Byte>) {
    && p in f.pipes
    && var contents := f.pipes[p].contents;
       n == Min(count, |contents|) && got == contents[..n] && Changes(f, g, p, contents, contents[n..])
  }

  // A read that returns a count has delivered that many bytes, and none only at the end of the stream.  It
  // sleeps, or fails if it must not block, while there is nothing to deliver and a writer is there.
  predicate ReadEnds<P(==)>(f: Fds<P>, g: Fds<P>, slot: nat, p: P, count: nat, outcome: Outcome, got: seq<Byte>)
    requires slot < |f.entries| && p in f.pipes
  {
    var pipe := f.pipes[p];
    var blocked := pipe.contents == [] && pipe.writers != 0;
    match outcome
    case Done(n) => !blocked && Delivers(f, g, p, count, n, got)
    case Sleep(_) => blocked && !Nonblocking(f.entries[slot]) && g == f && got == []
    case Fail(errno) => blocked && Nonblocking(f.entries[slot]) && errno == EAGAIN && g == f && got == []
  }

  // How much a pipe takes: nothing without a reader.
  function Room(pipe: Pipe): nat {
    if pipe.readers == 0 || |pipe.contents| >= CAPACITY then 0 else CAPACITY - |pipe.contents|
  }

  // A write of src that had put `from` bytes into the pipe has now put n: as many as there are and fit.
  predicate Accepts<P(==)>(f: Fds<P>, g: Fds<P>, p: P, src: seq<Byte>, from: nat, n: nat) {
    && p in f.pipes && from <= n <= |src|
    && var pipe := f.pipes[p];
       n - from == Min(|src| - from, Room(pipe)) && Changes(f, g, p, pipe.contents, pipe.contents + src[from..n])
  }

  // A write that returns a count, or sleeps, has put that many bytes into the pipe since it began.  It fails
  // only if there are none, is short only without a reader or without blocking, and sleeps only if neither.
  predicate WriteEnds<P(==)>(f: Fds<P>, g: Fds<P>, slot: nat, p: P, src: seq<Byte>, from: nat, outcome: Outcome)
    requires slot < |f.entries| && p in f.pipes
  {
    var stuck := Nonblocking(f.entries[slot]) || f.pipes[p].readers == 0;
    match outcome
    case Done(n) => Accepts(f, g, p, src, from, n) && (n == 0 ==> src == []) && (n < |src| ==> stuck)
    case Sleep(n) => Accepts(f, g, p, src, from, n) && n < |src| && !stuck
    case Fail(errno) =>
      && g == f && from == 0 && src != [] && Accepts(f, g, p, src, 0, 0) && stuck
      && errno == if f.pipes[p].readers == 0 then EPIPE else EAGAIN
  }

  lemma {:induction false} SameContents<P>(f: Fds<P>, p: P)
    requires p in f.pipes
    ensures f == f.(pipes := f.pipes[p := f.pipes[p].(contents := f.pipes[p].contents)])
  {
    assert f.pipes == f.pipes[p := f.pipes[p]];
  }

  lemma AppendingChanges<P>(f: Fds<P>, p: P, bytes: seq<Byte>)
    requires p in f.pipes
    ensures Changes(f, Appending(f, p, bytes), p, f.pipes[p].contents, f.pipes[p].contents + bytes)
  {
  }

  lemma {:induction false} ReadOnEnds<P>(f: Fds<P>, slot: nat, p: P, count: nat)
    requires slot < |f.entries| && p in f.pipes
    ensures var r := ReadOn(f, slot, p, count); ReadEnds(f, r.f, slot, p, count, r.outcome, r.bytes)
  {
    SameContents(f, p);
  }

  // The bytes that an outcome accounts for.
  function Moved(src: seq<Byte>, from: nat, outcome: Outcome): seq<Byte> {
    var n := if outcome.Done? then outcome.n else if outcome.Sleep? then outcome.total else from;
    if from <= n <= |src| then src[from..n] else []
  }

  lemma {:induction false} WriteMovesNone<P>(f: Fds<P>, slot: nat, p: P, src: seq<Byte>, from: nat)
    requires slot < |f.entries| && p in f.pipes && from <= |src| && (from == |src| || Room(f.pipes[p]) == 0)
    ensures var r := WriteOn(f, slot, p, src, from);
      WriteEnds(f, r.f, slot, p, src, from, r.outcome) && r.bytes == [] == Moved(src, from, r.outcome)
  {
    SameContents(f, p);
    assert src[from..from] == [] && f.pipes[p].contents + [] == f.pipes[p].contents;
    assert Accepts(f, f, p, src, from, from);
  }

  lemma {:induction false} WriteMovesSome<P>(f: Fds<P>, slot: nat, p: P, src: seq<Byte>, from: nat, next: nat)
    requires slot < |f.entries| && p in f.pipes && from < |src| && Room(f.pipes[p]) > 0
    requires next == from + Min(|src| - from, Room(f.pipes[p]))
    ensures var r := WriteOn(f, slot, p, src, from);
      WriteEnds(f, r.f, slot, p, src, from, r.outcome) && r.bytes == src[from..next] == Moved(src, from, r.outcome)
  {
    var g := Appending(f, p, src[from..next]);
    AppendingChanges(f, p, src[from..next]);
    assert Accepts(f, g, p, src, from, next);
  }

  lemma {:induction false} WriteOnEnds<P>(f: Fds<P>, slot: nat, p: P, src: seq<Byte>, from: nat)
    requires slot < |f.entries| && p in f.pipes && from <= |src|
    ensures var r := WriteOn(f, slot, p, src, from);
      WriteEnds(f, r.f, slot, p, src, from, r.outcome) && r.bytes == Moved(src, from, r.outcome)
  {
    if from == |src| || Room(f.pipes[p]) == 0 {
      WriteMovesNone(f, slot, p, src, from);
    } else {
      WriteMovesSome(f, slot, p, src, from, from + Min(|src| - from, Room(f.pipes[p])));
    }
  }

  // ---------------------------------------------------------------- one event

  predicate IsRead<P>(e: Event<P>) { e.Read? || e.ResumeRead? }
  predicate IsWrite<P>(e: Event<P>) { e.Write? || e.ResumeWrite? }

  // The count a read asks for, the bytes a write offers, how many of them went in before, and the slot.
  function Asked<P>(s: System<P>, e: Event<P>): nat
    requires Enabled(s, e) && IsRead(e)
  {
    if e.Read? then e.count else s.sleepers[e.c].count
  }

  function Offered<P>(s: System<P>, e: Event<P>): seq<Byte>
    requires Enabled(s, e) && IsWrite(e)
  {
    if e.Write? then e.src else s.sleepers[e.c].src
  }

  function Before<P>(s: System<P>, e: Event<P>): nat
    requires Enabled(s, e) && IsWrite(e)
  {
    if e.Write? then 0 else s.sleepers[e.c].total
  }

  function SlotIn<P>(s: System<P>, e: Event<P>): (slot: nat)
    requires Enabled(s, e) && (IsRead(e) || IsWrite(e))
    ensures slot < |s.f.entries|
  {
    if e.Read? || e.Write? then e.slot else s.sleepers[e.c].slot
  }

  /**
   A first or resumed read: a count that it returns is the number of bytes taken out of the pipe, the
   smaller of what was asked for and what was there, and they are its head; otherwise nothing moves.
   */
  lemma {:induction false} ReadCounts<P>(s: System<P>, e: Event<P>)
    requires Enabled(s, e) && IsRead(e)
    ensures match Touched(s, e)
      case Some(p) =>
        ReadEnds(s.f, Next(s, e).f, SlotIn(s, e), p, Asked(s, e), ReadOf(s, e).outcome, TakenFrom(s, e, p))
      case None => ReadOf(s, e).outcome == Fail(EBADF) && Next(s, e).f == s.f
  {
    if Touched(s, e).Some? { ReadOnEnds(s.f, SlotIn(s, e), Touched(s, e).value, Asked(s, e)); }
  }

  /**
   A first or resumed write: the number that it returns, or goes to sleep with, is the number of bytes it
   has put into the pipe since it began.
   */
  lemma {:induction false} WriteCounts<P>(s: System<P>, e: Event<P>)
    requires Enabled(s, e) && IsWrite(e)
    ensures match Touched(s, e)
      case Some(p) =>
        && WriteEnds(s.f, Next(s, e).f, SlotIn(s, e), p, Offered(s, e), Before(s, e), WriteOf(s, e).outcome)
      case None => WriteOf(s, e).outcome == Fail(EBADF) && Next(s, e).f == s.f
  {
    if Touched(s, e).Some? { WriteOnEnds(s.f, SlotIn(s, e), Touched(s, e).value, Offered(s, e), Before(s, e)); }
  }

  // ---------------------------------------------------------------- whole calls

  function CallOf<P>(e: Event<P>): Option<nat> { if IsRead(e) || IsWrite(e) then Some(e.c) else None }

  // Call c, asleep in s, returns with the last event of es, and not before.
  ghost predicate Finishes<P>(s: System<P>, es: seq<Event<P>>, c: nat)
    ensures Finishes(s, es, c) ==> Runs(s, es) && es != []
    decreases |es|
  {
    && es != [] && Enabled(s, es[0]) && c in s.sleepers
    && var next := Next(s, es[0]);
       if c !in next.sleepers then |es| == 1 else Finishes(next, es[1..], c)
  }

  // The call that the first event of es begins returns with the last, and not before.
  ghost predicate Completes<P>(s: System<P>, es: seq<Event<P>>)
    ensures Completes(s, es) ==> Runs(s, es) && es != []
  {
    && es != [] && Enabled(s, es[0]) && (es[0].Read? || es[0].Write?)
    && var next := Next(s, es[0]);
       if es[0].c !in next.sleepers then |es| == 1 else Finishes(next, es[1..], es[0].c)
  }

  ghost function OutcomeOf<P>(s: System<P>, e: Event<P>): Outcome
    requires Enabled(s, e)
  {
    if IsRead(e) then ReadOf(s, e).outcome else if IsWrite(e) then WriteOf(s, e).outcome else Done(0)
  }

  // What the last event of es returns.
  ghost function Result<P>(s: System<P>, es: seq<Event<P>>): Outcome
    requires Runs(s, es) && es != []
    decreases |es|
  {
    if |es| == 1 then OutcomeOf(s, es[0]) else Result(Next(s, es[0]), es[1..])
  }

  // The bytes that the events of call c put into pipe p.
  ghost function PutBy<P>(s: System<P>, es: seq<Event<P>>, c: nat, p: P): seq<Byte>
    requires Runs(s, es)
    decreases |es|
  {
    if es == [] then []
    else (if CallOf(es[0]) == Some(c) then PutInto(s, es[0], p) else []) + PutBy(Next(s, es[0]), es[1..], c, p)
  }

  ghost function TakenBy<P>(s: System<P>, es: seq<Event<P>>, c: nat, p: P): seq<Byte>
    requires Runs(s, es)
    decreases |es|
  {
    if es == [] then []
    else (if CallOf(es[0]) == Some(c) then TakenFrom(s, es[0], p) else []) + TakenBy(Next(s, es[0]), es[1..], c, p)
  }

  // What a write of src that had put `from` bytes into its pipe may return after it has put `put` more.
  predicate WriteReturns(src: seq<Byte>, from: nat, outcome: Outcome, put: seq<Byte>)
  {
    match outcome
    case Done(n) => from <= n <= |src| && put == src[from..n] && (n == 0 ==> src == [])
    case Sleep(_) => false
    case Fail(errno) => errno == EBADF || (from == 0 && put == [])
  }

  lemma {:induction false} OthersLeaveSleeper<P>(s: System<P>, e: Event<P>, c: nat)
    requires Enabled(s, e) && c in s.sleepers && CallOf(e) != Some(c)
    ensures c in Next(s, e).sleepers && Next(s, e).sleepers[c] == s.sleepers[c]
  {
  }

  // One more event of a write that sleeps again.
  lemma {:induction false} SleepsAgain<P>(s: System<P>, c: nat)
    requires c in s.sleepers && s.sleepers[c].Writing? && Enabled(s, ResumeWrite(c))
    requires c in Next(s, ResumeWrite(c)).sleepers
    ensures
      var w, v, put := s.sleepers[c], Next(s, ResumeWrite(c)).sleepers[c], PutInto(s, ResumeWrite(c), s.sleepers[c].p);
      && v.Writing? && v == w.(total := v.total) && w.total <= v.total < |w.src|
      && put == w.src[w.total..v.total]
  {
    if Touched(s, ResumeWrite(c)).Some? {
      WriteOnEnds(s.f, s.sleepers[c].slot, s.sleepers[c].p, s.sleepers[c].src, s.sleepers[c].total);
    }
  }

  lemma {:induction false} ReturnsAwake<P>(s: System<P>, c: nat)
    requires c in s.sleepers && s.sleepers[c].Writing? && Enabled(s, ResumeWrite(c))
    requires c !in Next(s, ResumeWrite(c)).sleepers
    ensures
      var w, e := s.sleepers[c], ResumeWrite(c);
      WriteReturns(w.src, w.total, WriteOf(s, e).outcome, PutInto(s, e, w.p))
  {
    if Touched(s, ResumeWrite(c)).Some? {
      WriteOnEnds(s.f, s.sleepers[c].slot, s.sleepers[c].p, s.sleepers[c].src, s.sleepers[c].total);
    }
  }

  // More bytes in front: from `from` to `mid`, and then as before.
  lemma {:induction false} PutInFront(src: seq<Byte>, from: nat, mid: nat, outcome: Outcome, put: seq<Byte>)
    requires from <= mid <= |src| && WriteReturns(src, mid, outcome, put)
    ensures WriteReturns(src, from, outcome, src[from..mid] + put)
  {
    if outcome.Done? {
      assert src[from..mid] + src[mid..outcome.n] == src[from..outcome.n];
    }
  }

  /**
   A sleeping write, whatever the other calls do meanwhile: the total it returns counts exactly the bytes
   its sections put into the pipe, in order.
   */
  lemma {:induction false} SleepingWriteReturnsTotal<P>(s: System<P>, es: seq<Event<P>>, c: nat)
    requires Finishes(s, es, c) && s.sleepers[c].Writing? && s.sleepers[c].total <= |s.sleepers[c].src|
    ensures var w := s.sleepers[c]; WriteReturns(w.src, w.total, Result(s, es), PutBy(s, es, c, w.p))
    decreases |es|
  {
    var e, w := es[0], s.sleepers[c];
    var next := Next(s, e);
    if CallOf(e) != Some(c) {
      OthersLeaveSleeper(s, e, c);
      SleepingWriteReturnsTotal(next, es[1..], c);
      assert [] + PutBy(next, es[1..], c, w.p) == PutBy(next, es[1..], c, w.p);
    } else if c in next.sleepers {
      SleepsAgain(s, c);
      var v := next.sleepers[c];
      SleepingWriteReturnsTotal(next, es[1..], c);
      PutInFront(w.src, w.total, v.total, Result(next, es[1..]), PutBy(next, es[1..], c, w.p));
    } else {
      ReturnsAwake(s, c);
      assert PutInto(s, e, w.p) + [] == PutInto(s, e, w.p);
    }
  }

  /**
   A whole write: the total it returns counts exactly the bytes all its sections put into the pipe of its
   descriptor, which are the first ones it was given.
   */
  lemma {:induction false} WriteReturnsTotal<P>(s: System<P>, es: seq<Event<P>>)
    requires Completes(s, es) && es[0].Write? && Touched(s, es[0]).Some?
    ensures
      WriteReturns(es[0].src, 0, Result(s, es), PutBy(s, es, es[0].c, Touched(s, es[0]).value))
  {
    var e, p := es[0], Touched(s, es[0]).value;
    var next, c := Next(s, e), e.c;
    WriteOnEnds(s.f, e.slot, p, e.src, 0);
    if c in next.sleepers {
      var v := next.sleepers[c];
      SleepingWriteReturnsTotal(next, es[1..], c);
      PutInFront(e.src, 0, v.total, Result(next, es[1..]), PutBy(next, es[1..], c, p));
    } else {
      assert PutInto(s, e, p) + [] == PutInto(s, e, p);
    }
  }

  // What a read of up to `count` bytes that has taken `taken` may return.
  predicate ReadReturns(count: nat, outcome: Outcome, taken: seq<Byte>) {
    match outcome
    case Done(n) => n == |taken| <= count
    case Sleep(_) => false
    case Fail(_) => taken == []
  }

  lemma {:induction false} SleepingReadReturnsCount<P>(s: System<P>, es: seq<Event<P>>, c: nat)
    requires Finishes(s, es, c) && s.sleepers[c].Reading?
    ensures var r := s.sleepers[c]; ReadReturns(r.count, Result(s, es), TakenBy(s, es, c, r.p))
    decreases |es|
  {
    var e, r := es[0], s.sleepers[c];
    var next := Next(s, e);
    if CallOf(e) != Some(c) {
      OthersLeaveSleeper(s, e, c);
      SleepingReadReturnsCount(next, es[1..], c);
      assert [] + TakenBy(next, es[1..], c, r.p) == TakenBy(next, es[1..], c, r.p);
    } else {
      ReadCounts(s, e);
      if c in next.sleepers {
        SleepingReadReturnsCount(next, es[1..], c);
        assert [] + TakenBy(next, es[1..], c, r.p) == TakenBy(next, es[1..], c, r.p);
      } else {
        assert TakenFrom(s, e, r.p) + [] == TakenFrom(s, e, r.p);
      }
    }
  }

  /** A whole read: the count it returns is the number of bytes all its sections took out of the pipe. */
  lemma {:induction false} ReadReturnsCount<P>(s: System<P>, es: seq<Event<P>>)
    requires Completes(s, es) && es[0].Read? && Touched(s, es[0]).Some?
    ensures
      ReadReturns(es[0].count, Result(s, es), TakenBy(s, es, es[0].c, Touched(s, es[0]).value))
  {
    var e, p := es[0], Touched(s, es[0]).value;
    var next, c := Next(s, e), e.c;
    ReadCounts(s, e);
    if c in next.sleepers {
      SleepingReadReturnsCount(next, es[1..], c);
      assert [] + TakenBy(next, es[1..], c, p) == TakenBy(next, es[1..], c, p);
    } else {
      assert TakenFrom(s, e, p) + [] == TakenFrom(s, e, p);
    }
  }

  // ---------------------------------------------------------------- no call is stuck

  // What a sleeping call remembers fits the table.
  ghost predicate SleepersFit<P>(s: System<P>) {
    forall c | c in s.sleepers ::
      s.sleepers[c].slot < |s.f.entries| && (s.sleepers[c].Writing? ==> s.sleepers[c].total < |s.sleepers[c].src|)
  }

  lemma {:induction false} MovesKeepFit<P>(s: System<P>, e: Event<P>)
    requires Enabled(s, e) && SleepersFit(s) && Moves(e)
    ensures SleepersFit(Next(s, e))
  {
    if IsWrite(e) { WriteCounts(s, e); } else { ReadCounts(s, e); }
  }

  lemma {:induction false} RunKeepsFit<P>(s: System<P>, es: seq<Event<P>>)
    requires Accounted(s.f) && Runs(s, es) && SleepersFit(s)
    ensures SleepersFit(After(s, es))
    decreases |es|
  {
    if es != [] {
      StepKeeps(s, es[0]);
      if Moves(es[0]) { MovesKeepFit(s, es[0]); }
      RunKeepsFit(Next(s, es[0]), es[1..]);
    }
  }

  /** After every run that began without sleepers, each call that sleeps can be resumed. */
  lemma {:induction false} SleepersResume<P>(s: System<P>, es: seq<Event<P>>, c: nat)
    requires Accounted(s.f) && s.sleepers == map[] && Runs(s, es) && c in After(s, es).sleepers
    ensures Enabled(After(s, es), if After(s, es).sleepers[c].Reading? then ResumeRead(c) else ResumeWrite(c))
  {
    RunKeepsFit(s, es);
  }

  // ---------------------------------------------------------------- descriptors

  // Only the entry in this slot differs, and what the pipes hold is the same as far as they still exist.
  predicate OnlyEntry<P(==)>(f: Fds<P>, g: Fds<P>, slot: nat) {
    && slot < |f.entries| == |g.entries|
    && (forall i | 0 <= i < |f.entries| && i != slot :: g.entries[i] == f.entries[i])
    && (forall p | p in g.pipes :: p in f.pipes && g.pipes[p].contents == f.pipes[p].contents)
  }

  // No slot but this one has a descriptor for the pipe.
  predicate LastName<P(==)>(f: Fds<P>, slot: nat, p: P) {
    forall i | 0 <= i < |f.entries| && i != slot && f.entries[i].kind != Unused :: f.entries[i].pipe != Some(p)
  }

  /** A close empties its slot and frees the pipe exactly if it had no other descriptor; nothing else goes. */
  lemma {:induction false} CloseCloses<P>(s: System<P>, slot: nat)
    requires Accounted(s.f) && Enabled(s, Close(slot))
    ensures
      var g, p := Next(s, Close(slot)).f, s.f.entries[slot].pipe.value;
      && g.entries[slot] == Zeroed() && OnlyEntry(s.f, g, slot)
      && (p !in g.pipes <==> LastName(s.f, slot, p))
      && forall q | q in s.f.pipes && q != p :: q in g.pipes && g.pipes[q] == s.f.pipes[q]
  {
    var g, p := Next(s, Close(slot)).f, s.f.entries[slot].pipe.value;
    StepKeeps(s, Close(slot));
    LiveIffReferenced(g, p);
    if LastName(s.f, slot, p) {
      assert forall i | 0 <= i < |g.entries| && g.entries[i].kind != Unused :: g.entries[i].pipe != Some(p);
    } else {
      var i :| 0 <= i < |s.f.entries| && i != slot && s.f.entries[i].kind != Unused && s.f.entries[i].pipe == Some(p);
      assert g.entries[i] == s.f.entries[i];
    }
  }

  // A second name for the same end of the same pipe.
  predicate SameEndOf<P(==)>(e: Entry<P>, of: Entry<P>) {
    e.kind == of.kind && e.pipe == of.pipe && e.statusFlags == of.statusFlags
  }

  /** A dup makes the lowest free descriptor from its minimum on a second name for its source, if there is one. */
  lemma {:induction false} DuplicateNames<P>(s: System<P>, slot: nat, minimumFd: int, cloexec: bool)
    requires Accounted(s.f) && Enabled(s, Duplicate(slot, minimumFd, cloexec))
    ensures
      var g := Next(s, Duplicate(slot, minimumFd, cloexec)).f;
      || (g == s.f && forall d | d >= minimumFd :: !PipeSafety.FreeAt(s.f, d))
      || (exists d | 0 <= d < FD_COUNT ::
            && FD_BASE + d >= minimumFd && PipeSafety.FreeAt(s.f, FD_BASE + d)
            && (forall e | minimumFd <= e < FD_BASE + d :: !PipeSafety.FreeAt(s.f, e))
            && OnlyEntry(s.f, g, d) && SameEndOf(g.entries[d], s.f.entries[slot]) && g.pipes.Keys == s.f.pipes.Keys)
  {
    PipeSafety.DupTakesLowest(s.f, slot, minimumFd, cloexec);
    var (g, fd) := Duplicating(s.f, slot, minimumFd, cloexec);
    if fd >= 0 {
      var d := SlotOf(fd);
      assert fd == FD_BASE + d;
      assert OnlyEntry(s.f, g, d) && SameEndOf(g.entries[d], s.f.entries[slot]) && g.pipes.Keys == s.f.pipes.Keys;
    }
  }

  /** The second half of dup2 names the source in a target slot that is free, and does nothing to one that is not. */
  lemma {:induction false} CloneNames<P>(s: System<P>, source: nat, target: nat)
    requires Accounted(s.f) && Enabled(s, Clone(source, target)) && target < FD_COUNT
    ensures
      var g := Next(s, Clone(source, target)).f;
      if s.f.entries[target].kind == Unused then
        g.entries[target] == s.f.entries[source] && OnlyEntry(s.f, g, target) && g.pipes.Keys == s.f.pipes.Keys
      else g == s.f
  {
  }

  /** Setting the flags of a descriptor changes nothing else. */
  lemma {:induction false} FlagsAreSet<P>(s: System<P>, slot: nat, fdFlags: Flags, statusFlags: Flags)
    requires Enabled(s, SetFlags(slot, fdFlags, statusFlags))
    ensures
      var g, e := Next(s, SetFlags(slot, fdFlags, statusFlags)).f, s.f.entries[slot];
      && g.entries[slot] == Entry(e.kind, e.pipe, fdFlags, statusFlags) && OnlyEntry(s.f, g, slot)
      && g.pipes == s.f.pipes
  {
  }

  /** A pipe gets two new descriptors, the lower for reading and the higher for writing, and starts out empty. */
  lemma {:induction false} PipeOpens<P>(s: System<P>, p: P)
    requires Accounted(s.f) && Enabled(s, MakePipe(p))
    ensures
      var g := Next(s, MakePipe(p)).f;
      exists r, w | 0 <= r < w < FD_COUNT ::
        && s.f.entries[r].kind == Unused && s.f.entries[w].kind == Unused
        && g.entries == s.f.entries[r := g.entries[r]][w := g.entries[w]]
        && Names(g, r, PipeRead, p) && Names(g, w, PipeWrite, p)
        && g.pipes == s.f.pipes[p := Pipe([], 1, 1)]
  {
    PipeTakesLowestTwo(s.f);
    var (r, w) := PipeSlots(s.f);
    var g := Next(s, MakePipe(p)).f;
    assert Names(g, r, PipeRead, p) && Names(g, w, PipeWrite, p);
  }
}
