/**
 The pipes and the descriptor table of source/fakefd.c, updated in place.  Each method is one
 section under the lock and is proved to do to the abstract table what PipeModel says.
 */
module FakeFd {
  import opened Common
  import opened PipeModel
  import opened PipeProtocol
  import PipeCalls
  import PipeSafety

  // The bytes of a ring that starts at head and wraps round the end of data.
  ghost function Window(data: seq<Byte>, head: nat, length: nat): (r: seq<Byte>)
    requires head < |data| && length <= |data|
    ensures |r| == length
  {
    seq(length, i requires 0 <= i < length => if head + i < |data| then data[head + i] else data[head + i - |data|])
  }

  lemma {:induction false} WindowAdvance(data: seq<Byte>, head: nat, length: nat, amount: nat)
    requires head < |data| == CAPACITY && amount <= length <= |data|
    ensures (head + amount) % CAPACITY < |data|
    ensures Window(data, (head + amount) % CAPACITY, length - amount) == Window(data, head, length)[amount..]
  {
  }

  // The bytes a read hands over in a buffer that holds `dst` afterwards.
  function Handed(outcome: Outcome, dst: seq<Byte>): seq<Byte> {
    if outcome.Done? && outcome.n <= |dst| then dst[..outcome.n] else []
  }

  // A read leaves the bytes it returns a count of at the head of its buffer, and the rest of the buffer alone.
  predicate ReadsInto<P(==)>(f: Fds<P>, g: Fds<P>, slot: nat, p: P, count: nat, outcome: Outcome,
                             was: seq<Byte>, now: seq<Byte>)
    requires slot < |f.entries| && p in f.pipes
  {
    var got := Handed(outcome, now);
    PipeCalls.ReadEnds(f, g, slot, p, count, outcome, got) && |got| <= |was| && now == got + was[|got|..]
  }

  lemma {:induction false} ReadOnReadsInto<P>(f: Fds<P>, slot: nat, p: P, count: nat, was: seq<Byte>, now: seq<Byte>)
    requires slot < |f.entries| && p in f.pipes && count <= |was|
    requires var r := ReadOn(f, slot, p, count); now == r.bytes + was[|r.bytes|..]
    ensures var r := ReadOn(f, slot, p, count); ReadsInto(f, r.f, slot, p, count, r.outcome, was, now)
  {
    var r := ReadOn(f, slot, p, count);
    PipeCalls.ReadOnEnds(f, slot, p, count);
    assert Handed(r.outcome, now) == r.bytes;
  }

  predicate SameEnd<P>(a: WriteResult<P>, b: WriteResult<P>) { a.f == b.f && a.outcome == b.outcome }

  // A blocking write that filled the pipe goes round its loop once more, to fall asleep or to leave.
  lemma {:induction false} WriteAgain<P>(f: Fds<P>, slot: nat, p: P, src: seq<Byte>, total: nat)
    requires slot < |f.entries| && p in f.pipes && total < |src|
    requires f.pipes[p].readers != 0 && |f.pipes[p].contents| < CAPACITY
    ensures
      var amount := Min(|src| - total, CAPACITY - |f.pipes[p].contents|);
      var g := Appending(f, p, src[total..total + amount]);
      && OnlyBytes(f, g, p)
      && (if Nonblocking(f.entries[slot]) then
            WriteOn(f, slot, p, src, total).f == g && WriteOn(f, slot, p, src, total).outcome == Done(total + amount)
          else SameEnd(WriteOn(g, slot, p, src, total + amount), WriteOn(f, slot, p, src, total)))
  {
  }

  lemma DupIsClone<P>(f: Fds<P>, slot: nat, minimumFd: int, cloexec: bool)
    requires Open(f, slot)
    ensures Duplicating(f, slot, minimumFd, cloexec)
      == CloneInto(f, f.entries[slot], AllocSlot(f.entries, minimumFd), cloexec)
  {
  }

  // A slot that a pipe has claimed but not filled in.
  function Claimed<P>(before: seq<Entry<P>>, r: nat): seq<Entry<P>>
    requires r < |before|
  {
    before[r := before[r].(kind := PipeRead)]
  }

  lemma PipingFrom<P>(f: Fds<P>, claimed: Fds<P>, g: Fds<P>, p: P, r: nat, w: nat)
    requires PipeSlots(f) == (r, w) && claimed == f.(entries := Claimed(f.entries, r))
    requires g == Fds(claimed.entries[r := Entry(PipeRead, Some(p), {}, {})][w := Entry(PipeWrite, Some(p), {}, {})],
                      claimed.pipes[p := Pipe([], 1, 1)])
    ensures g == Piping(f, p)
  {
  }

  class PipeState {
    const data: array<Byte>
    var head: nat
    var length: nat
    var readers: nat
    var writers: nat

    ghost predicate Valid()
      reads this
    {
      data.Length == CAPACITY && head < CAPACITY && length <= CAPACITY
    }

    ghost function Abs(): Pipe
      reads this, data
      requires Valid()
    {
      Pipe(Window(data[..], head, length), readers, writers)
    }

    constructor ()
      ensures Valid() && fresh(data) && Abs() == Pipe([], 1, 1)
    {
      data := new Byte[CAPACITY];
      head, length, readers, writers := 0, 0, 1, 1;
    }

    method Lose(kind: Kind)
      requires Valid()
      modifies this`readers, this`writers
      ensures Valid() && Abs() == Dropped(old(Abs()), kind)
    {
      if kind == PipeRead && readers > 0 { readers := readers - 1; }
      if kind == PipeWrite && writers > 0 { writers := writers - 1; }
    }

    method Gain(kind: Kind)
      requires Valid()
      modifies this`readers, this`writers
      ensures Valid() && Abs() == Added(old(Abs()), kind)
    {
      if kind == PipeRead { readers := readers + 1; }
      else if kind == PipeWrite { writers := writers + 1; }
    }

    // The two-part copy out of the ring.
    method CopyOut(dst: array<Byte>, amount: nat)
      requires Valid() && amount <= length && amount <= dst.Length && dst != data
      modifies dst
      ensures forall i | 0 <= i < amount :: dst[i] == Abs().contents[i]
      ensures forall i | amount <= i < dst.Length :: dst[i] == old(dst[i])
    {
      var first := amount;
      if first > CAPACITY - head { first := CAPACITY - head; }
      forall i | 0 <= i < first { dst[i] := data[head + i]; }
      if amount > first {
        forall i | 0 <= i < amount - first { dst[first + i] := data[i]; }
      }
    }

    method Take(dst: array<Byte>, count: nat) returns (amount: nat)
      requires Valid() && count <= dst.Length && dst != data
      modifies this`head, this`length, dst
      ensures Valid() && amount == Min(count, |old(Abs()).contents|)
      ensures Abs() == old(Abs()).(contents := old(Abs()).contents[amount..])
      ensures dst[..] == old(Abs()).contents[..amount] + old(dst[amount..])
    {
      amount := if count < length then count else length;
      CopyOut(dst, amount);
      WindowAdvance(data[..], head, length, amount);
      head := (head + amount) % CAPACITY;
      length := length - amount;
    }

    // The two-part copy into the ring.
    method Append(src: seq<Byte>)
      requires Valid() && |src| <= CAPACITY - length
      modifies this`length, data
      ensures Valid() && Abs() == old(Abs()).(contents := old(Abs()).contents + src)
    {
      var tail := (head + length) % CAPACITY;
      var first := |src|;
      if first > CAPACITY - tail { first := CAPACITY - tail; }
      forall i | 0 <= i < first { data[tail + i] := src[i]; }
      if |src| > first {
        forall i | 0 <= i < |src| - first { data[i] := src[first + i]; }
      }
      length := length + |src|;
    }
  }

  class FakeFds {
    const entries: array<Entry<PipeState>>
    ghost var live: set<PipeState>                 // the blocks calloc returned and free has not taken back

    ghost function Buffers(): set<object>
      reads this
    {
      set p | p in live :: p.data as object
    }

    ghost predicate Separate()
      reads this, live
    {
      && entries.Length == FD_COUNT
      && (forall p | p in live :: p.Valid() && p.data as object != entries)
      && (forall p, q | p in live && q in live && p != q :: p.data != q.data)
    }

    ghost function Abs(): Fds<PipeState>
      reads this, entries, live, Buffers()
      requires Separate()
    {
      Fds(entries[..], map p | p in live :: p.Abs())
    }

    ghost predicate Valid()
      reads this, entries, live, Buffers()
    {
      Separate() && Accounted(Abs())
    }

    constructor ()
      ensures Valid() && fresh(entries) && live == {}
      ensures Abs() == Fds(seq(FD_COUNT, i => Zeroed()), map[])
    {
      entries := new Entry<PipeState>[FD_COUNT](i => Zeroed());
      live := {};
    }

    method AllocSlotFrom(minimumFd: int) returns (slot: int)
      requires entries.Length == FD_COUNT
      ensures slot == AllocSlot(entries[..], minimumFd) && -1 <= slot < FD_COUNT
    {
      var first := 0;
      if minimumFd > FD_BASE { first := minimumFd - FD_BASE; }
      if first >= FD_COUNT { return -1; }
      for i := first to FD_COUNT
        invariant FreeFrom(entries[..], first) == FreeFrom(entries[..], i)
      {
        if entries[i].kind == Unused { return i; }
      }
      return -1;
    }

    // Whatever leaves the other pipes alone changes one pipe of the table.
    twostate lemma OnePipe(p: PipeState)
      requires old(Separate()) && Separate() && live == old(live) && p in live
      requires forall q | q in live && q != p :: q.Abs() == old(q.Abs())
      ensures Abs() == Fds(entries[..], old(Abs()).pipes[p := p.Abs()])
    {
      assert Abs().pipes == old(Abs()).pipes[p := p.Abs()];
    }

    // Whatever leaves every pipe alone changes only entries.
    twostate lemma SamePipes()
      requires old(Separate()) && live == old(live)
      requires forall p | p in live :: unchanged(p) && unchanged(p.data)
      ensures Separate() && Abs() == Fds(entries[..], old(Abs()).pipes)
      ensures entries[..] == old(entries[..]) ==> Abs() == old(Abs())
    {
      assert forall p | p in live :: p.Abs() == old(p.Abs());
    }

    // An open descriptor's pipe is in memory.
    lemma OpenIsLive(slot: nat)
      requires Valid() && slot < FD_COUNT && entries[slot].kind != Unused
      ensures entries[slot].pipe.Some? && entries[slot].pipe.value in live && Open(Abs(), slot)
      ensures Abs().entries[slot] == entries[slot]
    {
      assert Abs().entries[slot].pipe.value in Abs().pipes;
    }

    // A read under the lock, from the test of the pipe on.
    method ReadSection(slot: nat, p: PipeState, dst: array<Byte>, count: nat) returns (outcome: Outcome)
      requires Valid() && slot < FD_COUNT && p in live
      requires 0 < count <= dst.Length && dst as object !in Buffers() + {entries}
      modifies live, dst
      ensures Valid() && live == old(live)
      ensures var r := ReadOn(old(Abs()), slot, p, count);
        outcome == r.outcome && Abs() == r.f && dst[..] == r.bytes + old(dst[..])[|r.bytes|..]
    {
      if p.length == 0 && p.writers != 0 {
        if Nonblocking(entries[slot]) { return Fail(EAGAIN); }
        return Sleep(0);
      }
      if p.length == 0 && p.writers == 0 { return Done(0); }
      var n := p.Take(dst, count);
      outcome := Done(n);
      OnePipe(p);
      ReadOnMoves(old(Abs()), slot, p, count);
      BytesKeep(old(Abs()), Abs(), p);
    }

    // fakefd_read up to the point where it returns or sleeps; a sleeper remembers its pipe.
    method Read(fd: int, dst: array?<Byte>, count: nat) returns (outcome: Outcome, pipe: Option<PipeState>)
      requires Valid() && (dst != null ==> count <= dst.Length && dst as object !in Buffers() + {entries})
      modifies live, dst
      ensures Valid() && live == old(live)
      ensures
        if SlotOf(fd) < 0 then outcome == Fail(EBADF) && Abs() == old(Abs())
        else if dst == null && count > 0 then outcome == Fail(EFAULT) && Abs() == old(Abs())
        else if count == 0 then outcome == Done(0) && Abs() == old(Abs())
        else var r := ReadEnter(old(Abs()), SlotOf(fd), count);
          && outcome == r.outcome && Abs() == r.f && dst[..] == r.bytes + old(dst[..])[|r.bytes|..]
          && (outcome.Sleep? ==> pipe == entries[SlotOf(fd)].pipe)
      ensures dst != null && (SlotOf(fd) < 0 || count == 0) ==> dst[..] == old(dst[..])
      ensures
        SlotOf(fd) >= 0 && dst != null && count > 0 ==>
          var before, slot := old(Abs()), SlotOf(fd);
          if Refers(before, slot, PipeRead) then
            ReadsInto(before, Abs(), slot, before.entries[slot].pipe.value, count, outcome, old(dst[..]), dst[..])
          else outcome == Fail(EBADF) && Abs() == before && dst[..] == old(dst[..])
    {
      var slot := SlotOf(fd);
      pipe := None;
      if slot < 0 || (dst == null && count > 0) { return Fail(if slot < 0 then EBADF else EFAULT), None; }
      if count == 0 { return Done(0), None; }
      pipe := entries[slot].pipe;
      if entries[slot].kind != PipeRead || pipe.None? { return Fail(EBADF), None; }
      OpenIsLive(slot);
      outcome := ReadSection(slot, pipe.value, dst, count);
      ReadOnReadsInto(old(Abs()), slot, pipe.value, count, old(dst[..]), dst[..]);
    }

    // fakefd_read after a sleep on pipe p.
    method ReadAgain(slot: nat, p: PipeState, dst: array<Byte>, count: nat) returns (outcome: Outcome)
      requires Valid() && slot < FD_COUNT && 0 < count <= dst.Length && dst as object !in Buffers() + {entries}
      modifies live, dst
      ensures Valid() && live == old(live)
      ensures var r := ReadResume(old(Abs()), slot, p, count);
        outcome == r.outcome && Abs() == r.f && dst[..] == r.bytes + old(dst[..])[|r.bytes|..]
      ensures
        if Names(old(Abs()), slot, PipeRead, p) then
          p in old(Abs()).pipes && ReadsInto(old(Abs()), Abs(), slot, p, count, outcome, old(dst[..]), dst[..])
        else outcome == Fail(EBADF) && Abs() == old(Abs()) && dst[..] == old(dst[..])
    {
      if entries[slot].kind != PipeRead || entries[slot].pipe != Some(p) { return Fail(EBADF); }
      OpenIsLive(slot);
      outcome := ReadSection(slot, p, dst, count);
      ReadOnReadsInto(old(Abs()), slot, p, count, old(dst[..]), dst[..]);
    }

    lemma PipeSeen(slot: nat, p: PipeState)
      requires Valid() && slot < FD_COUNT && p in live
      ensures p in Abs().pipes && Abs().entries[slot] == entries[slot] && p.length <= CAPACITY
      ensures
        var pipe := Abs().pipes[p];
        |pipe.contents| == p.length && pipe.readers == p.readers && pipe.writers == p.writers
    {
    }

    // One turn of the write loop: as much as fits.
    method AppendChunk(p: PipeState, src: seq<Byte>, total: nat) returns (amount: nat)
      requires Valid() && p in live && total <= |src|
      modifies live, Buffers()
      ensures Valid() && live == old(live)
      ensures amount == Min(|src| - total, CAPACITY - |old(p.Abs()).contents|)
      ensures Abs() == Appending(old(Abs()), p, src[total..total + amount])
    {
      amount := Min(|src| - total, CAPACITY - p.length);
      p.Append(src[total..total + amount]);
      OnePipe(p);
      BytesKeep(old(Abs()), Abs(), p);
    }

    // The turn of a write to a pipe with room and a reader.
    method WriteSome(slot: nat, p: PipeState, src: seq<Byte>, total: nat) returns (next: nat, stop: Option<Outcome>)
      requires Valid() && slot < FD_COUNT && p in live && total < |src| && p.length < CAPACITY && p.readers != 0
      modifies live, Buffers()
      ensures Valid() && live == old(live) && total < next <= |src|
      ensures var goal := WriteOn(old(Abs()), slot, p, src, total);
        if stop.Some? then goal.f == Abs() && goal.outcome == stop.value
        else SameEnd(WriteOn(Abs(), slot, p, src, next), goal)
    {
      PipeSeen(slot, p);
      WriteAgain(Abs(), slot, p, src, total);
      var amount := AppendChunk(p, src, total);
      next := total + amount;
      stop := if Nonblocking(entries[slot]) then Some(Done(next)) else None;
    }

    // The body of the write loop: the reason to stop, if there is one, and the total after the turn.
    method WriteTurn(slot: nat, p: PipeState, src: seq<Byte>, total: nat) returns (next: nat, stop: Option<Outcome>)
      requires Valid() && slot < FD_COUNT && p in live && total < |src|
      modifies live, Buffers()
      ensures Valid() && live == old(live)
      ensures var goal := WriteOn(old(Abs()), slot, p, src, total);
        if stop.Some? then goal.f == Abs() && goal.outcome == stop.value
        else total < next <= |src| && SameEnd(WriteOn(Abs(), slot, p, src, next), goal)
    {
      PipeSeen(slot, p);
      if p.length == CAPACITY && p.readers != 0 {
        return total, Some(if Nonblocking(entries[slot]) then Partial(total, EAGAIN) else Sleep(total));
      }
      if p.readers == 0 { return total, Some(Partial(total, EPIPE)); }
      next, stop := WriteSome(slot, p, src, total);
    }

    // A write under the lock with `done` bytes already in, from the head of its loop on.
    method WriteSection(slot: nat, p: PipeState, src: seq<Byte>, done: nat) returns (outcome: Outcome)
      requires Valid() && slot < FD_COUNT && p in live && done < |src|
      modifies live, Buffers()
      ensures Valid() && live == old(live)
      ensures var r := WriteOn(old(Abs()), slot, p, src, done); outcome == r.outcome && Abs() == r.f
    {
      var total := done;
      while total < |src|
        invariant Valid() && live == old(live) && done <= total <= |src|
        invariant SameEnd(WriteOn(Abs(), slot, p, src, total), WriteOn(old(Abs()), slot, p, src, done))
      {
        var next, stop := WriteTurn(slot, p, src, total);
        if stop.Some? { return stop.value; }
        total := next;
      }
      return Done(total);
    }

    // fakefd_write up to the point where it returns or sleeps.
    method Write(fd: int, src: Option<seq<Byte>>, count: nat) returns (outcome: Outcome, pipe: Option<PipeState>)
      requires Valid() && (src.Some? ==> count == |src.value|)
      modifies live, Buffers()
      ensures Valid() && live == old(live)
      ensures
        if SlotOf(fd) < 0 then outcome == Fail(EBADF) && Abs() == old(Abs())
        else if src.None? && count > 0 then outcome == Fail(EFAULT) && Abs() == old(Abs())
        else if count == 0 then outcome == Done(0) && Abs() == old(Abs())
        else var r := WriteEnter(old(Abs()), SlotOf(fd), src.value);
          && outcome == r.outcome && Abs() == r.f && (outcome.Sleep? ==> pipe == entries[SlotOf(fd)].pipe)
      ensures
        SlotOf(fd) >= 0 && src.Some? && count > 0 ==>
          var before, slot := old(Abs()), SlotOf(fd);
          if Refers(before, slot, PipeWrite) then
            PipeCalls.WriteEnds(before, Abs(), slot, before.entries[slot].pipe.value, src.value, 0, outcome)
          else outcome == Fail(EBADF) && Abs() == before
    {
      var slot := SlotOf(fd);
      if slot < 0 || (src.None? && count > 0) { return Fail(if slot < 0 then EBADF else EFAULT), None; }
      if count == 0 { return Done(0), None; }
      pipe := entries[slot].pipe;
      if entries[slot].kind != PipeWrite || pipe.None? { return Fail(EBADF), None; }
      OpenIsLive(slot);
      PipeCalls.WriteOnEnds(Abs(), slot, pipe.value, src.value, 0);
      if pipe.value.readers == 0 { return Fail(EPIPE), None; }
      outcome := WriteSection(slot, pipe.value, src.value, 0);
    }

    // fakefd_write after a sleep on pipe p with `total` bytes in.
    method WriteAwake(slot: nat, p: PipeState, src: seq<Byte>, total: nat) returns (outcome: Outcome)
      requires Valid() && slot < FD_COUNT && total < |src|
      modifies live, Buffers()
      ensures Valid() && live == old(live)
      ensures var r := WriteResume(old(Abs()), slot, p, src, total); outcome == r.outcome && Abs() == r.f
      ensures
        if Names(old(Abs()), slot, PipeWrite, p) then
          && p in old(Abs()).pipes
          && PipeCalls.WriteEnds(old(Abs()), Abs(), slot, p, src, total, outcome)
        else outcome == Fail(EBADF) && Abs() == old(Abs())
    {
      if entries[slot].kind != PipeWrite || entries[slot].pipe != Some(p) { return Fail(EBADF); }
      OpenIsLive(slot);
      PipeCalls.WriteOnEnds(Abs(), slot, p, src, total);
      outcome := WriteSection(slot, p, src, total);
    }

    ghost method Free(p: PipeState)
      requires Separate() && p in live
      modifies this`live
      ensures Separate() && live == old(live) - {p}
      ensures Abs() == old(Abs()).(pipes := old(Abs()).pipes - {p})
    {
      live := live - {p};
      assert Abs().pipes == old(Abs()).pipes - {p};
    }

    // The update fakefd_close makes once it knows its descriptor is open.
    method Drop(slot: nat, p: PipeState)
      requires Separate() && slot < FD_COUNT && IsOpen(entries[slot]) && entries[slot].pipe == Some(p) && p in live
      modifies this, entries, live
      ensures Separate() && live <= old(live)
      ensures Abs() == Closing(old(Abs()), slot)
    {
      p.Lose(entries[slot].kind);
      OnePipe(p);
      label BeforeClear:
      entries[slot] := Zeroed();
      SamePipes@BeforeClear();
      if p.readers == 0 && p.writers == 0 { Free(p); }
    }

    // fakefd_close; true means 0, false EBADF.
    method Close(fd: int) returns (ok: bool)
      requires Valid()
      modifies this, entries, live
      ensures Valid() && live <= old(live)
      ensures ok == (SlotOf(fd) >= 0 && IsOpen(old(entries[SlotOf(fd)])))
      ensures Abs() == if ok then Closing(old(Abs()), SlotOf(fd)) else old(Abs())
    {
      var slot := SlotOf(fd);
      if slot < 0 { return false; }
      if entries[slot].kind == Unused || entries[slot].pipe.None? { return false; }
      OpenIsLive(slot);
      ClosingKeeps(Abs(), slot);
      Drop(slot, entries[slot].pipe.value);
      return true;
    }

    // The update clone_into_slot_locked makes in a free slot.
    method Copy(src: Entry<PipeState>, slot: nat, cloexec: bool)
      requires Separate() && src.pipe.Some? && src.pipe.value in live && slot < FD_COUNT && entries[slot].kind == Unused
      modifies entries, live
      ensures Separate() && live == old(live)
      ensures Abs() == CloneInto(old(Abs()), src, slot, cloexec).0
    {
      var p := src.pipe.value;
      p.Gain(src.kind);
      OnePipe(p);
      label BeforeFill:
      entries[slot] := if cloexec then src.(fdFlags := src.fdFlags + {CLOEXEC}) else src;
      SamePipes@BeforeFill();
    }

    // clone_into_slot_locked
    method CloneIntoSlot(ghost from: nat, src: Entry<PipeState>, slot: int, cloexec: bool) returns (fd: int)
      requires Valid() && from < FD_COUNT && src == entries[from] && Open(Abs(), from)
      modifies entries, live
      ensures Valid() && live == old(live)
      ensures Abs() == CloneInto(old(Abs()), src, slot, cloexec).0 && fd == CloneInto(old(Abs()), src, slot, cloexec).1
    {
      if slot < 0 || slot >= FD_COUNT || entries[slot].kind != Unused { return -1; }
      CloneKeeps(Abs(), from, slot, cloexec);
      Copy(src, slot, cloexec);
      fd := FD_BASE + slot;
    }

    // fakefd_dup: the new descriptor, or why there is none.
    method Dup(fd: int, minimumFd: int, cloexec: bool) returns (newFd: int, errno: Option<Errno>)
      requires Valid()
      modifies entries, live
      ensures Valid() && live == old(live)
      ensures
        if SlotOf(fd) < 0 || !IsOpen(old(entries[SlotOf(fd)])) then
          newFd == -1 && errno == Some(EBADF) && Abs() == old(Abs())
        else (var after := Duplicating(old(Abs()), SlotOf(fd), minimumFd, cloexec);
              Abs() == after.0 && newFd == after.1 && errno == if newFd < 0 then Some(EMFILE) else None)
    {
      var slot := SlotOf(fd);
      if slot < 0 { return -1, Some(EBADF); }
      var src := entries[slot];
      if src.kind == Unused || src.pipe.None? { return -1, Some(EBADF); }
      OpenIsLive(slot);
      var dst := AllocSlotFrom(minimumFd);
      SamePipes();
      DupIsClone(Abs(), slot, minimumFd, cloexec);
      newFd := CloneIntoSlot(slot, src, dst, cloexec);
      errno := if newFd < 0 then Some(EMFILE) else None;
    }

    // The section of fakefd_dup2 that names the source's pipe in the target slot, from whatever state
    // other threads have left the table in since the target was closed.
    method CloneSection(source: nat, target: nat) returns (fd: int, errno: Option<Errno>)
      requires Valid() && source < FD_COUNT && target < FD_COUNT
      modifies entries, live
      ensures Valid() && live == old(live)
      ensures
        if !IsOpen(old(entries[source])) then fd == -1 && errno == Some(EBADF) && Abs() == old(Abs())
        else if old(entries[target]).kind != Unused then fd == -1 && errno == Some(EBUSY) && Abs() == old(Abs())
        else fd == FD_BASE + target && errno == None
             && Abs() == CloneInto(old(Abs()), old(entries[source]), target, false).0
    {
      var src := entries[source];
      if src.kind == Unused || src.pipe.None? { return -1, Some(EBADF); }
      OpenIsLive(source);
      fd := CloneIntoSlot(source, src, target, false);
      errno := if fd < 0 then Some(EBUSY) else None;
    }

    // fakefd_dup2 with no other thread between its sections.
    method Dup2(oldFd: int, newFd: int) returns (fd: int, errno: Option<Errno>)
      requires Valid()
      modifies this, entries, live
      ensures Valid() && live <= old(live)
      ensures
        if SlotOf(oldFd) < 0 || SlotOf(newFd) < 0 then fd == -1 && errno == Some(EBADF) && Abs() == old(Abs())
        else if oldFd == newFd then
          Abs() == old(Abs()) && fd == if IsOpen(old(entries[SlotOf(oldFd)])) then newFd else -1
        else (var after := PipeSafety.Dup2(old(Abs()), SlotOf(oldFd), SlotOf(newFd));
              Abs() == after.0 && fd == after.1 && errno == if fd < 0 then Some(EBADF) else None)
    {
      var oldSlot, newSlot := SlotOf(oldFd), SlotOf(newFd);
      if oldSlot < 0 || newSlot < 0 { return -1, Some(EBADF); }
      if oldFd == newFd { return if entries[oldSlot].kind != Unused then newFd else -1, None; }
      PipeSafety.Dup2Replaces(Abs(), oldSlot, newSlot);
      if entries[newSlot].kind != Unused {
        OpenIsLive(newSlot);
        var closed := Close(newFd);
      }
      fd, errno := CloneSection(oldSlot, newSlot);
    }

    // The two allocations of fakefd_pipe; the first slot stays claimed if there is a second.
    method TwoSlots() returns (r: int, w: int)
      requires entries.Length == FD_COUNT
      requires forall i | 0 <= i < FD_COUNT && entries[i].kind == Unused :: entries[i] == Zeroed()
      modifies entries
      ensures r == AllocSlot(old(entries[..]), FD_BASE) && r < FD_COUNT
      ensures r < 0 ==> entries[..] == old(entries[..])
      ensures r >= 0 ==> w == AllocSlot(Claimed(old(entries[..]), r), FD_BASE) && w < FD_COUNT
      ensures r >= 0 ==> old(entries[r]) == Zeroed()
      ensures r >= 0 ==> entries[..] == if w < 0 then old(entries[..]) else Claimed(old(entries[..]), r)
    {
      w := -1;
      r := AllocSlotFrom(FD_BASE);
      FreeFromLowest<PipeState>(entries[..], 0);
      if r < 0 { return; }
      entries[r] := entries[r].(kind := PipeRead);
      w := AllocSlotFrom(FD_BASE);
      if w < 0 { entries[r] := Zeroed(); }
    }

    // The update fakefd_pipe makes once it has two slots and a block.
    method Install(r: nat, w: nat) returns (p: PipeState)
      requires Separate() && r < FD_COUNT && w < FD_COUNT
      modifies this, entries
      ensures Separate() && fresh(p) && live == old(live) + {p}
      ensures Abs() == Fds(
        old(entries[..])[r := Entry(PipeRead, Some(p), {}, {})][w := Entry(PipeWrite, Some(p), {}, {})],
        old(Abs()).pipes[p := Pipe([], 1, 1)])
    {
      p := new PipeState();
      entries[r] := Entry(PipeRead, Some(p), {}, {});
      entries[w] := Entry(PipeWrite, Some(p), {}, {});
      live := live + {p};
      assert Abs().pipes == old(Abs()).pipes[p := Pipe([], 1, 1)];
    }

    // fakefd_pipe; `memory` says whether calloc finds a block.
    method MakePipe(memory: bool) returns (read: int, write: int, errno: Option<Errno>)
      requires Valid()
      modifies this, entries
      ensures Valid()
      ensures var (r, w) := PipeSlots(old(Abs()));
        if r < 0 || w < 0 then errno == Some(EMFILE) && Abs() == old(Abs())
        else if !memory then errno == Some(ENOMEM) && Abs() == old(Abs())
        else (errno == None && read == FD_BASE + r && write == FD_BASE + w
              && exists p :: fresh(p) && live == old(live) + {p} && Abs() == Piping(old(Abs()), p))
    {
      read, write := -1, -1;
      var r, w := TwoSlots();
      SamePipes();
      if r < 0 || w < 0 {
        return -1, -1, Some(EMFILE);
      }
      if !memory {
        entries[r] := Zeroed();
        assert entries[..] == old(entries[..]);
        SamePipes();
        return -1, -1, Some(ENOMEM);
      }
      ghost var before, claimed := old(Abs()), Abs();
      var p := Install(r, w);
      PipingFrom(before, claimed, Abs(), p, r, w);
      PipingKeeps(before, p);
      return FD_BASE + r, FD_BASE + w, None;
    }

    // fakefd_ready
    method Poll(fd: int) returns (ready: Ready)
      requires Valid()
      ensures ready == if SlotOf(fd) < 0 then Ready(false, false, false, true) else Readiness(Abs(), SlotOf(fd))
    {
      var slot := SlotOf(fd);
      if slot < 0 { return Ready(false, false, false, true); }
      ready := Ready(false, false, false, false);
      if entries[slot].kind == Unused || entries[slot].pipe.None? {
        ready := ready.(error := true);
      } else {
        OpenIsLive(slot);
        var p := entries[slot].pipe.value;
        PipeSeen(slot, p);
        if entries[slot].kind == PipeRead {
          if p.length > 0 || p.writers == 0 { ready := ready.(readable := true); }
          if p.writers == 0 { ready := ready.(hangup := true); }
        } else if p.readers == 0 {
          ready := ready.(error := true, hangup := true);
        } else if p.length < CAPACITY {
          ready := ready.(writable := true);
        }
      }
    }
  }
}
