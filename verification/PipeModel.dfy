/**
 The descriptor table of source/fakefd.c as a value: each function is what one call does while it
 holds the lock.  P is whatever identifies a pipe; it may be reused after the pipe was freed.
 */
module PipeModel {
  import opened Common

  newtype Byte = b: int | 0 <= b < 256

  // A word of flags is the set of its bits that are 1.
  type Flags = set<nat>

  const FD_BASE: int := 900
  const FD_COUNT: nat := 48
  const CAPACITY: nat := 16384
  const CLOEXEC: nat := 0       // FD_CLOEXEC, 1
  const NONBLOCK: nat := 11     // O_NONBLOCK, 0x800

  datatype Kind = Unused | PipeRead | PipeWrite

  datatype Entry<P> = Entry(kind: Kind, pipe: Option<P>, fdFlags: Flags, statusFlags: Flags)

  datatype Pipe = Pipe(contents: seq<Byte>, readers: nat, writers: nat)

  datatype Fds<P(==)> = Fds(entries: seq<Entry<P>>, pipes: map<P, Pipe>)

  datatype Errno = EBADF | EFAULT | EAGAIN | EPIPE | EMFILE | ENOMEM | EBUSY | EINVAL

  // How a section of read or write ends: the call returns, or it sleeps and will be resumed.
  datatype Outcome = Done(n: nat) | Fail(errno: Errno) | Sleep(total: nat)

  function Zeroed<P>(): Entry<P> { Entry(Unused, None, {}, {}) }

  predicate Nonblocking<P>(e: Entry<P>) { NONBLOCK in e.statusFlags }

  // The table slot of a descriptor, -1 outside the range.
  function SlotOf(fd: int): int {
    if 0 <= fd - FD_BASE < FD_COUNT then fd - FD_BASE else -1
  }

  predicate IsOpen<P>(e: Entry<P>) { e.kind != Unused && e.pipe.Some? }

  // ---------------------------------------------------------------- allocation

  function FreeFrom<P>(entries: seq<Entry<P>>, i: nat): (r: int)
    requires i <= |entries|
    ensures -1 <= r < |entries|
    decreases |entries| - i
  {
    if i == |entries| then -1
    else if entries[i].kind == Unused then i
    else FreeFrom(entries, i + 1)
  }

  lemma {:induction false} FreeFromLowest<P>(entries: seq<Entry<P>>, i: nat)
    requires i <= |entries|
    ensures var r := FreeFrom(entries, i);
      && (r < 0 ==> forall j | i <= j < |entries| :: entries[j].kind != Unused)
      && (r >= 0 ==> i <= r && entries[r].kind == Unused && forall j | i <= j < r :: entries[j].kind != Unused)
    decreases |entries| - i
  {
    if i < |entries| { FreeFromLowest(entries, i + 1); }
  }

  function FirstSlot(minimumFd: int): nat {
    if minimumFd > FD_BASE then minimumFd - FD_BASE else 0
  }

  // alloc_slot_from
  function AllocSlot<P>(entries: seq<Entry<P>>, minimumFd: int): int {
    if FirstSlot(minimumFd) >= |entries| then -1 else FreeFrom(entries, FirstSlot(minimumFd))
  }

  // ---------------------------------------------------------------- read and write

  function Taking<P>(f: Fds<P>, p: P, n: nat): Fds<P>
    requires p in f.pipes && n <= |f.pipes[p].contents|
  {
    f.(pipes := f.pipes[p := f.pipes[p].(contents := f.pipes[p].contents[n..])])
  }

  function Appending<P>(f: Fds<P>, p: P, bytes: seq<Byte>): Fds<P>
    requires p in f.pipes
  {
    f.(pipes := f.pipes[p := f.pipes[p].(contents := f.pipes[p].contents + bytes)])
  }

  datatype ReadResult<P(==)> = ReadResult(f: Fds<P>, outcome: Outcome, bytes: seq<Byte>)

  // The rest of a read once it knows its descriptor still names pipe p.
  function ReadOn<P>(f: Fds<P>, slot: nat, p: P, count: nat): ReadResult<P>
    requires slot < |f.entries| && p in f.pipes
  {
    var pipe := f.pipes[p];
    if pipe.contents == [] && pipe.writers != 0 then
      ReadResult(f, if Nonblocking(f.entries[slot]) then Fail(EAGAIN) else Sleep(0), [])
    else if pipe.contents == [] then
      ReadResult(f, Done(0), [])
    else
      var n := Min(count, |pipe.contents|);
      ReadResult(Taking(f, p, n), Done(n), pipe.contents[..n])
  }

  predicate Names<P(==)>(f: Fds<P>, slot: nat, kind: Kind, p: P)
    requires slot < |f.entries|
  {
    f.entries[slot].kind == kind && f.entries[slot].pipe == Some(p)
  }

  datatype WriteResult<P(==)> = WriteResult(f: Fds<P>, outcome: Outcome, bytes: seq<Byte>)

  function Partial(total: nat, errno: Errno): Outcome { if total > 0 then Done(total) else Fail(errno) }

  // The rest of a write of src, of which `total` bytes are already in.
  function WriteOn<P>(f: Fds<P>, slot: nat, p: P, src: seq<Byte>, total: nat): WriteResult<P>
    requires slot < |f.entries| && p in f.pipes && total <= |src|
  {
    var pipe := f.pipes[p];
    if total == |src| then
      WriteResult(f, Done(total), [])
    else if pipe.readers == 0 then
      WriteResult(f, Partial(total, EPIPE), [])
    else if |pipe.contents| >= CAPACITY then
      WriteResult(f, if Nonblocking(f.entries[slot]) then Partial(total, EAGAIN) else Sleep(total), [])
    else
      var n := Min(|src| - total, CAPACITY - |pipe.contents|);
      var bytes := src[total..total + n];
      WriteResult(Appending(f, p, bytes),
                  if total + n == |src| || Nonblocking(f.entries[slot]) then Done(total + n) else Sleep(total + n),
                  bytes)
  }

  predicate Refers<P(==)>(f: Fds<P>, slot: nat, kind: Kind)
    requires slot < |f.entries|
  {
    f.entries[slot].kind == kind && f.entries[slot].pipe.Some? && f.entries[slot].pipe.value in f.pipes
  }

  // A read or write from its start: the section that begins with the lock.
  function ReadEnter<P>(f: Fds<P>, slot: nat, count: nat): ReadResult<P>
    requires slot < |f.entries|
  {
    if Refers(f, slot, PipeRead) then ReadOn(f, slot, f.entries[slot].pipe.value, count)
    else ReadResult(f, Fail(EBADF), [])
  }

  function WriteEnter<P>(f: Fds<P>, slot: nat, src: seq<Byte>): WriteResult<P>
    requires slot < |f.entries|
  {
    if Refers(f, slot, PipeWrite) then WriteOn(f, slot, f.entries[slot].pipe.value, src, 0)
    else WriteResult(f, Fail(EBADF), [])
  }

  // The section after a sleep: the call goes on only if its descriptor still names its pipe.
  function ReadResume<P>(f: Fds<P>, slot: nat, p: P, count: nat): ReadResult<P>
    requires slot < |f.entries|
  {
    if Names(f, slot, PipeRead, p) && p in f.pipes then ReadOn(f, slot, p, count)
    else ReadResult(f, Fail(EBADF), [])
  }

  function WriteResume<P>(f: Fds<P>, slot: nat, p: P, src: seq<Byte>, total: nat): WriteResult<P>
    requires slot < |f.entries| && total <= |src|
  {
    if Names(f, slot, PipeWrite, p) && p in f.pipes then WriteOn(f, slot, p, src, total)
    else WriteResult(f, Fail(EBADF), [])
  }

  // ---------------------------------------------------------------- close, dup, pipe

  function Dropped(pipe: Pipe, kind: Kind): Pipe {
    match kind
    case PipeRead => pipe.(readers := Less(pipe.readers))
    case PipeWrite => pipe.(writers := Less(pipe.writers))
    case Unused => pipe
  }

  function Closing<P>(f: Fds<P>, slot: nat): Fds<P>
    requires slot < |f.entries| && IsOpen(f.entries[slot]) && f.entries[slot].pipe.value in f.pipes
  {
    var p := f.entries[slot].pipe.value;
    var pipe := Dropped(f.pipes[p], f.entries[slot].kind);
    Fds(f.entries[slot := Zeroed()],
        if pipe.readers == 0 && pipe.writers == 0 then f.pipes - {p} else f.pipes[p := pipe])
  }

  function Added(pipe: Pipe, kind: Kind): Pipe {
    match kind
    case PipeRead => pipe.(readers := pipe.readers + 1)
    case PipeWrite => pipe.(writers := pipe.writers + 1)
    case Unused => pipe
  }

  // clone_into_slot_locked: the table afterwards, and the descriptor or -1.
  function CloneInto<P>(f: Fds<P>, src: Entry<P>, slot: int, cloexec: bool): (Fds<P>, int)
    requires src.pipe.Some? && src.pipe.value in f.pipes
  {
    if slot < 0 || slot >= |f.entries| || f.entries[slot].kind != Unused then (f, -1)
    else
      var e := if cloexec then src.(fdFlags := src.fdFlags + {CLOEXEC}) else src;
      var p := src.pipe.value;
      (Fds(f.entries[slot := e], f.pipes[p := Added(f.pipes[p], src.kind)]), FD_BASE + slot)
  }

  // fakefd_dup, past the range check.
  function Duplicating<P>(f: Fds<P>, slot: nat, minimumFd: int, cloexec: bool): (Fds<P>, int)
    requires slot < |f.entries| && IsOpen(f.entries[slot]) && f.entries[slot].pipe.value in f.pipes
  {
    CloneInto(f, f.entries[slot], AllocSlot(f.entries, minimumFd), cloexec)
  }

  // The slots fakefd_pipe would use, -1 for each that is missing.
  function PipeSlots<P>(f: Fds<P>): (r: (int, int))
    ensures -1 <= r.0 < |f.entries| && -1 <= r.1 < |f.entries|
  {
    var r := AllocSlot(f.entries, FD_BASE);
    if r < 0 then (-1, -1)
    else (r, AllocSlot(f.entries[r := f.entries[r].(kind := PipeRead)], FD_BASE))
  }

  // fakefd_pipe with p the block calloc returned.
  function Piping<P>(f: Fds<P>, p: P): Fds<P>
    requires PipeSlots(f).0 >= 0 && PipeSlots(f).1 >= 0
  {
    var (r, w) := PipeSlots(f);
    Fds(f.entries[r := Entry(PipeRead, Some(p), {}, {})][w := Entry(PipeWrite, Some(p), {}, {})],
        f.pipes[p := Pipe([], 1, 1)])
  }

  // ---------------------------------------------------------------- readiness

  datatype Ready = Ready(readable: bool, writable: bool, hangup: bool, error: bool)

  function Readiness<P>(f: Fds<P>, slot: nat): Ready
    requires slot < |f.entries|
    requires IsOpen(f.entries[slot]) ==> f.entries[slot].pipe.value in f.pipes
  {
    var e := f.entries[slot];
    if !IsOpen(e) then Ready(false, false, false, true)
    else
      var pipe := f.pipes[e.pipe.value];
      if e.kind == PipeRead then Ready(pipe.contents != [] || pipe.writers == 0, false, pipe.writers == 0, false)
      else if pipe.readers == 0 then Ready(false, false, true, true)
      else Ready(false, |pipe.contents| < CAPACITY, false, false)
  }

  // ---------------------------------------------------------------- accounting

  // The open descriptors of one kind on pipe p.
  function Count<P(==)>(entries: seq<Entry<P>>, kind: Kind, p: P): nat {
    if entries == [] then 0
    else (if entries[0].kind == kind && entries[0].pipe == Some(p) then 1 else 0) + Count(entries[1..], kind, p)
  }

  lemma {:induction false} CountUpdate<P>(entries: seq<Entry<P>>, i: nat, e: Entry<P>, kind: Kind, p: P)
    requires i < |entries|
    ensures
      Count(entries[i := e], kind, p) + (if entries[i].kind == kind && entries[i].pipe == Some(p) then 1 else 0)
        == Count(entries, kind, p) + (if e.kind == kind && e.pipe == Some(p) then 1 else 0)
  {
    if i == 0 {
      assert entries[i := e][1..] == entries[1..];
    } else {
      assert entries[i := e][1..] == entries[1..][i - 1 := e];
      CountUpdate(entries[1..], i - 1, e, kind, p);
    }
  }

  lemma {:induction false} CountPositive<P>(entries: seq<Entry<P>>, i: nat, kind: Kind, p: P)
    requires i < |entries| && entries[i].kind == kind && entries[i].pipe == Some(p)
    ensures Count(entries, kind, p) > 0
  {
    if i > 0 { CountPositive(entries[1..], i - 1, kind, p); }
  }

  lemma {:induction false} CountWitness<P>(entries: seq<Entry<P>>, kind: Kind, p: P) returns (i: nat)
    requires Count(entries, kind, p) > 0
    ensures i < |entries| && entries[i].kind == kind && entries[i].pipe == Some(p)
  {
    if entries[0].kind == kind && entries[0].pipe == Some(p) { i := 0; }
    else { i := CountWitness(entries[1..], kind, p); i := i + 1; }
  }

  // Reader and writer counts are the numbers of open descriptors, and a pipe exists as long as one refers to it.
  ghost predicate Accounted<P>(f: Fds<P>) {
    && |f.entries| == FD_COUNT
    && (forall i | 0 <= i < |f.entries| && f.entries[i].kind == Unused :: f.entries[i] == Zeroed())
    && (forall i | 0 <= i < |f.entries| && f.entries[i].kind != Unused ::
          f.entries[i].pipe.Some? && f.entries[i].pipe.value in f.pipes)
    && (forall p | p in f.pipes ::
          && f.pipes[p].readers == Count(f.entries, PipeRead, p) && f.pipes[p].writers == Count(f.entries, PipeWrite, p)
          && f.pipes[p].readers + f.pipes[p].writers > 0
          && |f.pipes[p].contents| <= CAPACITY)
  }
}
