/**
 Pipes shared by many threads and many duplicated descriptors: every run is an interleaving of
 the sections of PipeModel, with reads and writes that sleep and resume in between.
 */
module PipeProtocol {
  import opened Common
  import opened PipeModel

  // A read or write that is asleep.
  datatype Sleeper<P> =
    | Reading(slot: nat, p: P, count: nat)
    | Writing(slot: nat, p: P, src: seq<Byte>, total: nat)

  datatype System<P(==)> = System(f: Fds<P>, sleepers: map<nat, Sleeper<P>>)

  datatype Event<P> =
    | MakePipe(p: P)
    | Read(c: nat, slot: nat, count: nat)
    | ResumeRead(c: nat)
    | Write(c: nat, slot: nat, src: seq<Byte>)
    | ResumeWrite(c: nat)
    | Close(slot: nat)
    | Duplicate(slot: nat, minimumFd: int, cloexec: bool)
    | Clone(source: nat, target: nat)                    // the second half of dup2
    | SetFlags(slot: nat, fdFlags: Flags, statusFlags: Flags)

  predicate Open<P>(f: Fds<P>, slot: nat) {
    slot < |f.entries| && IsOpen(f.entries[slot]) && f.entries[slot].pipe.value in f.pipes
  }

  predicate Enabled<P(==)>(s: System<P>, e: Event<P>) {
    match e
    case MakePipe(p) => p !in s.f.pipes && PipeSlots(s.f).0 >= 0 && PipeSlots(s.f).1 >= 0
    case Read(c, slot, count) => c !in s.sleepers && slot < |s.f.entries| && count > 0
    case ResumeRead(c) => c in s.sleepers && s.sleepers[c].Reading? && s.sleepers[c].slot < |s.f.entries|
    case Write(c, slot, src) => c !in s.sleepers && slot < |s.f.entries| && src != []
    case ResumeWrite(c) =>
      && c in s.sleepers && s.sleepers[c].Writing? && s.sleepers[c].slot < |s.f.entries|
      && s.sleepers[c].total <= |s.sleepers[c].src|
    case Close(slot) => Open(s.f, slot)
    case Duplicate(slot, _, _) => Open(s.f, slot)
    case Clone(source, target) => Open(s.f, source)
    case SetFlags(slot, _, _) => Open(s.f, slot)
  }

  function ReadOf<P>(s: System<P>, e: Event<P>): ReadResult<P>
    requires Enabled(s, e) && (e.Read? || e.ResumeRead?)
  {
    match e
    case Read(_, slot, count) => ReadEnter(s.f, slot, count)
    case ResumeRead(c) => ReadResume(s.f, s.sleepers[c].slot, s.sleepers[c].p, s.sleepers[c].count)
  }

  function WriteOf<P>(s: System<P>, e: Event<P>): WriteResult<P>
    requires Enabled(s, e) && (e.Write? || e.ResumeWrite?)
  {
    match e
    case Write(_, slot, src) => WriteEnter(s.f, slot, src)
    case ResumeWrite(c) =>
      var w := s.sleepers[c];
      WriteResume(s.f, w.slot, w.p, w.src, w.total)
  }

  function Next<P>(s: System<P>, e: Event<P>): System<P>
    requires Enabled(s, e)
  {
    match e
    case MakePipe(p) => s.(f := Piping(s.f, p))
    case Read(c, slot, count) =>
      var r := ReadOf(s, e);
      if r.outcome.Sleep? && IsOpen(s.f.entries[slot])
      then System(r.f, s.sleepers[c := Reading(slot, s.f.entries[slot].pipe.value, count)])
      else System(r.f, s.sleepers)
    case ResumeRead(c) =>
      var r := ReadOf(s, e);
      System(r.f, if r.outcome.Sleep? then s.sleepers else s.sleepers - {c})
    case Write(c, slot, src) =>
      var r := WriteOf(s, e);
      if r.outcome.Sleep? && IsOpen(s.f.entries[slot])
      then System(r.f, s.sleepers[c := Writing(slot, s.f.entries[slot].pipe.value, src, r.outcome.total)])
      else System(r.f, s.sleepers)
    case ResumeWrite(c) =>
      var r := WriteOf(s, e);
      System(
        r.f,
        if r.outcome.Sleep? then s.sleepers[c := s.sleepers[c].(total := r.outcome.total)] else s.sleepers - {c})
    case Close(slot) => s.(f := Closing(s.f, slot))
    case Duplicate(slot, minimumFd, cloexec) => s.(f := Duplicating(s.f, slot, minimumFd, cloexec).0)
    case Clone(source, target) => s.(f := CloneInto(s.f, s.f.entries[source], target, false).0)
    case SetFlags(slot, fdFlags, statusFlags) =>
      s.(f := s.f.(entries := s.f.entries[slot := s.f.entries[slot].(fdFlags := fdFlags, statusFlags := statusFlags)]))
  }

  // ---------------------------------------------------------------- descriptor accounting

  // An update of one entry and the pipe it concerns keeps the books, if the counts move with it.
  lemma {:induction false} EntryUpdate<P>(f: Fds<P>, g: Fds<P>, slot: nat, p: P)
    requires Accounted(f) && slot < |f.entries| && p in f.pipes
    requires |g.entries| == |f.entries| && g.entries == f.entries[slot := g.entries[slot]]
    requires forall q | q in f.pipes && q != p :: q in g.pipes && g.pipes[q] == f.pipes[q]
    requires forall q | q in g.pipes && q != p :: q in f.pipes
    requires f.entries[slot].kind != Unused ==> f.entries[slot].pipe == Some(p)
    requires if g.entries[slot].kind == Unused then g.entries[slot] == Zeroed() else g.entries[slot].pipe == Some(p)
    requires p in g.pipes ==>
      && g.pipes[p].readers == Count(g.entries, PipeRead, p) && g.pipes[p].writers == Count(g.entries, PipeWrite, p)
      && g.pipes[p].readers + g.pipes[p].writers > 0 && |g.pipes[p].contents| <= CAPACITY
    requires p !in g.pipes ==> Count(g.entries, PipeRead, p) == 0 && Count(g.entries, PipeWrite, p) == 0
    ensures Accounted(g)
  {
    forall i | 0 <= i < |g.entries| && g.entries[i].kind != Unused
      ensures g.entries[i].pipe.Some? && g.entries[i].pipe.value in g.pipes
    {
      if g.entries[i].pipe == Some(p) { CountPositive(g.entries, i, g.entries[i].kind, p); }
    }
    forall q | q in g.pipes && q != p ensures
      g.pipes[q].readers == Count(g.entries, PipeRead, q) && g.pipes[q].writers == Count(g.entries, PipeWrite, q)
    {
      CountUpdate(f.entries, slot, g.entries[slot], PipeRead, q);
      CountUpdate(f.entries, slot, g.entries[slot], PipeWrite, q);
    }
  }

  lemma {:induction false} ClosingKeeps<P>(f: Fds<P>, slot: nat)
    requires Accounted(f) && Open(f, slot)
    ensures Accounted(Closing(f, slot))
  {
    var p := f.entries[slot].pipe.value;
    CountUpdate(f.entries, slot, Zeroed(), PipeRead, p);
    CountUpdate(f.entries, slot, Zeroed(), PipeWrite, p);
    EntryUpdate(f, Closing(f, slot), slot, p);
  }

  lemma {:induction false} CloneKeeps<P>(f: Fds<P>, source: nat, target: int, cloexec: bool)
    requires Accounted(f) && Open(f, source)
    ensures Accounted(CloneInto(f, f.entries[source], target, cloexec).0)
  {
    var (g, fd) := CloneInto(f, f.entries[source], target, cloexec);
    if fd >= 0 {
      var p := f.entries[source].pipe.value;
      CountUpdate(f.entries, target, g.entries[target], PipeRead, p);
      CountUpdate(f.entries, target, g.entries[target], PipeWrite, p);
      EntryUpdate(f, g, target, p);
    }
  }

  lemma {:induction false} FlagsKeep<P>(f: Fds<P>, slot: nat, e: Entry<P>)
    requires Accounted(f) && Open(f, slot) && e.kind == f.entries[slot].kind && e.pipe == f.entries[slot].pipe
    ensures Accounted(f.(entries := f.entries[slot := e]))
  {
    var p := f.entries[slot].pipe.value;
    CountUpdate(f.entries, slot, e, PipeRead, p);
    CountUpdate(f.entries, slot, e, PipeWrite, p);
    EntryUpdate(f, f.(entries := f.entries[slot := e]), slot, p);
  }

  lemma {:induction false} CountOfUnknown<P>(entries: seq<Entry<P>>, kind: Kind, p: P)
    requires forall i | 0 <= i < |entries| :: entries[i].pipe != Some(p)
    ensures Count(entries, kind, p) == 0
  {
    if entries != [] { CountOfUnknown(entries[1..], kind, p); }
  }

  /** pipe takes the two lowest free descriptors, reader first. */
  lemma {:induction false} PipeTakesLowestTwo<P>(f: Fds<P>)
    requires Accounted(f)
    ensures
      var (r, w) := PipeSlots(f);
      if r >= 0 && w >= 0 then
        && r < w < FD_COUNT && f.entries[r].kind == Unused && f.entries[w].kind == Unused
        && forall i | 0 <= i < w && i != r :: f.entries[i].kind != Unused
      else forall i, j | 0 <= i < j < FD_COUNT :: f.entries[i].kind != Unused || f.entries[j].kind != Unused
  {
    var (r, w) := PipeSlots(f);
    FreeFromLowest(f.entries, 0);
    if r >= 0 {
      var marked := f.entries[r := f.entries[r].(kind := PipeRead)];
      FreeFromLowest(marked, 0);
      assert forall i | 0 <= i < FD_COUNT && i != r :: marked[i] == f.entries[i];
      forall i | 0 <= i < FD_COUNT && i != r && (w < 0 || i < w) ensures f.entries[i].kind != Unused {
        assert marked[i].kind != Unused;
      }
    }
  }

  lemma {:induction false} PipingKeeps<P>(f: Fds<P>, p: P)
    requires Accounted(f) && p !in f.pipes && PipeSlots(f).0 >= 0 && PipeSlots(f).1 >= 0
    ensures Accounted(Piping(f, p)) && PipeSlots(f).0 < PipeSlots(f).1
  {
    PipeTakesLowestTwo(f);
    var (r, w) := PipeSlots(f);
    var first := f.entries[r := Entry(PipeRead, Some(p), {}, {})];
    var g := Piping(f, p);
    forall q | q in g.pipes ensures
      g.pipes[q].readers == Count(g.entries, PipeRead, q) && g.pipes[q].writers == Count(g.entries, PipeWrite, q)
    {
      if q == p { CountOfUnknown(f.entries, PipeRead, p); CountOfUnknown(f.entries, PipeWrite, p); }
      CountUpdate(f.entries, r, first[r], PipeRead, q);
      CountUpdate(f.entries, r, first[r], PipeWrite, q);
      CountUpdate(first, w, g.entries[w], PipeRead, q);
      CountUpdate(first, w, g.entries[w], PipeWrite, q);
    }
  }

  // f and g differ at most in the bytes that pipe p holds.
  ghost predicate OnlyBytes<P>(f: Fds<P>, g: Fds<P>, p: P) {
    && p in f.pipes && p in g.pipes
    && g == f.(pipes := f.pipes[p := f.pipes[p].(contents := g.pipes[p].contents)])
    && (|f.pipes[p].contents| <= CAPACITY ==> |g.pipes[p].contents| <= CAPACITY)
  }

  lemma {:induction false} ReadOnMoves<P>(f: Fds<P>, slot: nat, p: P, count: nat)
    requires slot < |f.entries| && p in f.pipes
    ensures var r := ReadOn(f, slot, p, count);
      OnlyBytes(f, r.f, p) && f.pipes[p].contents == r.bytes + r.f.pipes[p].contents
  {
    assert f == f.(pipes := f.pipes[p := f.pipes[p].(contents := f.pipes[p].contents)]);
  }

  lemma {:induction false} WriteOnMoves<P>(f: Fds<P>, slot: nat, p: P, src: seq<Byte>, total: nat)
    requires slot < |f.entries| && p in f.pipes && total <= |src|
    ensures var r := WriteOn(f, slot, p, src, total);
      OnlyBytes(f, r.f, p) && f.pipes[p].contents + r.bytes == r.f.pipes[p].contents
  {
    assert f == f.(pipes := f.pipes[p := f.pipes[p].(contents := f.pipes[p].contents)]);
  }

  // The pipe a section moves bytes of, if it gets that far.
  function Touched<P>(s: System<P>, e: Event<P>): Option<P>
    requires Enabled(s, e)
  {
    match e
    case Read(_, slot, _) => if Refers(s.f, slot, PipeRead) then s.f.entries[slot].pipe else None
    case Write(_, slot, _) => if Refers(s.f, slot, PipeWrite) then s.f.entries[slot].pipe else None
    case ResumeRead(c) =>
      var w := s.sleepers[c];
      if Names(s.f, w.slot, PipeRead, w.p) && w.p in s.f.pipes then Some(w.p) else None
    case ResumeWrite(c) =>
      var w := s.sleepers[c];
      if Names(s.f, w.slot, PipeWrite, w.p) && w.p in s.f.pipes then Some(w.p) else None
    case _ => None
  }

  predicate Moves<P>(e: Event<P>) { e.Read? || e.ResumeRead? || e.Write? || e.ResumeWrite? }

  // The bytes an event takes out of pipe p, and the bytes it puts in.
  function TakenFrom<P(==)>(s: System<P>, e: Event<P>, p: P): seq<Byte>
    requires Enabled(s, e)
  {
    if (e.Read? || e.ResumeRead?) && Touched(s, e) == Some(p) then ReadOf(s, e).bytes else []
  }

  function PutInto<P(==)>(s: System<P>, e: Event<P>, p: P): seq<Byte>
    requires Enabled(s, e)
  {
    if (e.Write? || e.ResumeWrite?) && Touched(s, e) == Some(p) then WriteOf(s, e).bytes else []
  }

  lemma {:induction false} ReadStep<P>(s: System<P>, e: Event<P>)
    requires Enabled(s, e) && (e.Read? || e.ResumeRead?)
    ensures Touched(s, e).None? ==> Next(s, e).f == s.f
    ensures Touched(s, e).Some? ==>
      var p := Touched(s, e).value;
      OnlyBytes(s.f, Next(s, e).f, p) && s.f.pipes[p].contents == TakenFrom(s, e, p) + Next(s, e).f.pipes[p].contents
  {
    if Touched(s, e).Some? {
      var p := Touched(s, e).value;
      if e.Read? { ReadOnMoves(s.f, e.slot, p, e.count); }
      else { ReadOnMoves(s.f, s.sleepers[e.c].slot, p, s.sleepers[e.c].count); }
    }
  }

  lemma {:induction false} WriteStep<P>(s: System<P>, e: Event<P>)
    requires Enabled(s, e) && (e.Write? || e.ResumeWrite?)
    ensures Touched(s, e).None? ==> Next(s, e).f == s.f
    ensures Touched(s, e).Some? ==>
      var p := Touched(s, e).value;
      OnlyBytes(s.f, Next(s, e).f, p) && s.f.pipes[p].contents + PutInto(s, e, p) == Next(s, e).f.pipes[p].contents
  {
    if Touched(s, e).Some? {
      var p := Touched(s, e).value;
      if e.Write? { WriteOnMoves(s.f, e.slot, p, e.src, 0); }
      else { WriteOnMoves(s.f, s.sleepers[e.c].slot, p, s.sleepers[e.c].src, s.sleepers[e.c].total); }
    }
  }

  lemma {:induction false} BytesKeep<P>(f: Fds<P>, g: Fds<P>, p: P)
    requires Accounted(f) && OnlyBytes(f, g, p)
    ensures Accounted(g)
  {
  }

  lemma {:induction false} MovesKeep<P>(s: System<P>, e: Event<P>)
    requires Accounted(s.f) && Enabled(s, e) && Moves(e)
    ensures Accounted(Next(s, e).f)
  {
    if e.Read? || e.ResumeRead? { ReadStep(s, e); } else { WriteStep(s, e); }
    if Touched(s, e).Some? { BytesKeep(s.f, Next(s, e).f, Touched(s, e).value); }
  }

  /** Every section keeps the books: counts are open descriptors, and a pipe lives exactly as long as one names it. */
  lemma {:induction false} StepKeeps<P>(s: System<P>, e: Event<P>)
    requires Accounted(s.f) && Enabled(s, e)
    ensures Accounted(Next(s, e).f)
  {
    match e {
      case MakePipe(p) => PipingKeeps(s.f, p);
      case Close(slot) => ClosingKeeps(s.f, slot);
      case Duplicate(slot, minimumFd, cloexec) => CloneKeeps(s.f, slot, AllocSlot(s.f.entries, minimumFd), cloexec);
      case Clone(source, target) => CloneKeeps(s.f, source, target, false);
      case SetFlags(slot, fdFlags, statusFlags) =>
        FlagsKeep(s.f, slot, s.f.entries[slot].(fdFlags := fdFlags, statusFlags := statusFlags));
      case _ => MovesKeep(s, e);
    }
  }

  predicate Runs<P(==)>(s: System<P>, es: seq<Event<P>>)
    decreases |es|
  {
    es == [] || (Enabled(s, es[0]) && Runs(Next(s, es[0]), es[1..]))
  }

  function After<P>(s: System<P>, es: seq<Event<P>>): System<P>
    requires Runs(s, es)
    decreases |es|
  {
    if es == [] then s else After(Next(s, es[0]), es[1..])
  }

  lemma {:induction false} RunKeeps<P>(s: System<P>, es: seq<Event<P>>)
    requires Accounted(s.f) && Runs(s, es)
    ensures Accounted(After(s, es).f)
    decreases |es|
  {
    if es != [] {
      StepKeeps(s, es[0]);
      RunKeeps(Next(s, es[0]), es[1..]);
    }
  }

  /** A pipe is in memory if and only if some open descriptor refers to it. */
  lemma {:induction false} LiveIffReferenced<P>(f: Fds<P>, p: P)
    requires Accounted(f)
    ensures p in f.pipes <==>
      exists i :: 0 <= i < |f.entries| && f.entries[i].kind != Unused && f.entries[i].pipe == Some(p)
  {
    if p in f.pipes {
      var kind := if f.pipes[p].readers > 0 then PipeRead else PipeWrite;
      var i := CountWitness(f.entries, kind, p);
    }
  }

  // ---------------------------------------------------------------- first in, first out

  lemma {:induction false} StepFifo<P>(s: System<P>, e: Event<P>, p: P)
    requires Accounted(s.f) && Enabled(s, e) && p in s.f.pipes && p in Next(s, e).f.pipes
    ensures s.f.pipes[p].contents + PutInto(s, e, p) == TakenFrom(s, e, p) + Next(s, e).f.pipes[p].contents
  {
    if e.Read? || e.ResumeRead? { ReadStep(s, e); }
    else if e.Write? || e.ResumeWrite? { WriteStep(s, e); }
  }

  // Pipe p exists in every state of the run.
  predicate Lives<P(==)>(s: System<P>, es: seq<Event<P>>, p: P)
    requires Runs(s, es)
    decreases |es|
  {
    p in s.f.pipes && (es != [] ==> Lives(Next(s, es[0]), es[1..], p))
  }

  function AllTaken<P(==)>(s: System<P>, es: seq<Event<P>>, p: P): seq<Byte>
    requires Runs(s, es)
    decreases |es|
  {
    if es == [] then [] else TakenFrom(s, es[0], p) + AllTaken(Next(s, es[0]), es[1..], p)
  }

  function AllPut<P(==)>(s: System<P>, es: seq<Event<P>>, p: P): seq<Byte>
    requires Runs(s, es)
    decreases |es|
  {
    if es == [] then [] else PutInto(s, es[0], p) + AllPut(Next(s, es[0]), es[1..], p)
  }

  lemma {:induction false} Chained(before: seq<Byte>, put: seq<Byte>, taken: seq<Byte>, mid: seq<Byte>,
                                   laterPut: seq<Byte>, laterTaken: seq<Byte>, end: seq<Byte>)
    requires before + put == taken + mid
    requires mid + laterPut == laterTaken + end
    ensures before + (put + laterPut) == (taken + laterTaken) + end
  {
    assert before + (put + laterPut) == (before + put) + laterPut;
    assert (taken + mid) + laterPut == taken + (mid + laterPut);
    assert taken + (laterTaken + end) == (taken + laterTaken) + end;
  }

  /**
   Over every interleaving, through any descriptors: what was in the pipe followed by everything
   written is everything read followed by what is in the pipe now.
   */
  lemma {:induction false} PipeIsFifo<P>(s: System<P>, es: seq<Event<P>>, p: P)
    requires Accounted(s.f) && Runs(s, es) && Lives(s, es, p)
    ensures p in After(s, es).f.pipes
    ensures s.f.pipes[p].contents + AllPut(s, es, p) == AllTaken(s, es, p) + After(s, es).f.pipes[p].contents
    decreases |es|
  {
    if es != [] {
      var t := Next(s, es[0]);
      StepKeeps(s, es[0]);
      PipeIsFifo(t, es[1..], p);
      StepFifo(s, es[0], p);
      Chained(s.f.pipes[p].contents, PutInto(s, es[0], p), TakenFrom(s, es[0], p), t.f.pipes[p].contents,
              AllPut(t, es[1..], p), AllTaken(t, es[1..], p), After(t, es[1..]).f.pipes[p].contents);
    }
  }
}
