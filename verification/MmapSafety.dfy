/**
 What follows for every interleaving of mmap and munmap calls, from the state
 bionic_set_mmap_arena leaves.
 */
module MmapSafety {
  import opened Common
  import opened Bits
  import opened MmapModel
  import opened MmapProtocol

  // ---------------------------------------------------------------- runs

  predicate Initial(s: System) {
    && |s.m.records| == MMAP_SLOTS && (forall i | 0 <= i < MMAP_SLOTS :: !s.m.records[i].used)
    && s.m.backingBytes == 0 && s.m.arenaUsed == 0 && s.m.peakSlots == 0
    && ArenaOk(s.m) && s.calls == map[] && s.heap == map[]
  }

  predicate Runs(s: System, es: seq<Event>)
    decreases |es|
  {
    es == [] || (Enabled(s, es[0]) && Runs(Next(s, es[0]), es[1..]))
  }

  function After(s: System, es: seq<Event>): System
    requires Runs(s, es)
    decreases |es|
  {
    if es == [] then s else After(Next(s, es[0]), es[1..])
  }

  lemma {:induction false} SumOfUnused(records: seq<MmapSlot>)
    requires forall i | 0 <= i < |records| :: !records[i].used
    ensures SumBacking(records) == 0
  {
    if records != [] { SumOfUnused(records[1..]); }
  }

  lemma {:induction false} InitialInv(s: System)
    requires Initial(s)
    ensures Inv(s)
  {
    SumOfUnused(s.m.records);
    forall k: nat ensures !Bit(s.m.arenaUsed, k) { BitOfZero(k); }
  }

  /** The free() after a failed file read is always given a heap block, never arena memory. */
  lemma {:induction false} FileMemoryIsHeap(s: System, id: nat)
    requires Inv(s) && id in s.calls && s.calls[id].Reserved? && s.calls[id].req.fileBacked
    ensures s.calls[id].holding.Block? && OwnsBlock(s, Op(id), AddressOf(s, s.calls[id].holding))
  {
    assert CallOk(s, s.calls[id]);
  }

  lemma {:induction false} CountKeeps(s: System, e: Event)
    requires Inv(s) && e.CountFallback?
    ensures Inv(Next(s, e))
  {
    var t := Next(s, e);
    TableFrame(s, t, 0, 0);
    CallTouched(s, t, 0);
    SlotsStayOwned(s, t, Op(0), Op(0));
    BlocksStayOwned(s, t, Op(0), Op(0));
  }

  /** One section or foreign call keeps every slot and every heap block with exactly one owner. */
  lemma {:induction false} StepKeeps(s: System, e: Event)
    requires Inv(s) && Enabled(s, e)
    ensures Inv(Next(s, e))
  {
    match e {
      case Reserve(_, _) => ReserveKeeps(s, e);
      case Allocate(_, _, _) => AllocateKeeps(s, e);
      case CountFallback => CountKeeps(s, e);
      case AbandonMisaligned(id) => SurrenderKeeps(s, id);
      case AbandonFile(id) => FileMemoryIsHeap(s, id); SurrenderKeeps(s, id);
      case Enter(_) => EnterKeeps(s, e);
      case GiveBack(id) => SurrenderKeeps(s, id);
      case Unmap(_, _, _) => UnmapKeeps(s, e);
      case Free(id) => BlockGivenBack(s, id, s.calls[id].base);
    }
  }

  /** Over every run: the bitmap is the disjoint union of the runs held by records and by calls under way. */
  lemma {:induction false} RunKeeps(s: System, es: seq<Event>)
    requires Inv(s) && Runs(s, es)
    ensures Inv(After(s, es))
    decreases |es|
  {
    if es != [] {
      StepKeeps(s, es[0]);
      RunKeeps(Next(s, es[0]), es[1..]);
    }
  }

  /** No slot and no heap block leaks: once every call has returned and every record is gone, all is free. */
  lemma {:induction false} NothingLeaks(s: System, es: seq<Event>)
    requires Initial(s) && Runs(s, es)
    requires
      var t := After(s, es);
      t.calls == map[] && forall i | 0 <= i < |t.m.records| :: !t.m.records[i].used
    ensures After(s, es).m.arenaUsed == 0 && After(s, es).heap == map[] && After(s, es).m.backingBytes == 0
  {
    var t := After(s, es);
    InitialInv(s);
    RunKeeps(s, es);
    SumOfUnused(t.m.records);
    assert forall w: Owner, k: nat :: !OwnsSlot(t, w, k);
    assert forall w: Owner, b: nat :: !OwnsBlock(t, w, b);
    forall k: nat ensures Bit(t.m.arenaUsed, k) <==> Bit(0, k) { BitOfZero(k); }
    Extensional(t.m.arenaUsed, 0);
    assert t.heap.Keys == {};
  }

  // ---------------------------------------------------------------- what is given back

  datatype SlotRun = SlotRun(first: nat, count: nat)
  {
    predicate Contains(k: nat) { first <= k < first + count }
  }

  // The slots that unmapping [start, end) passes to the release of the arena.
  function UnmappedRun(r: MmapSlot, start: nat, end: nat): Option<SlotRun> {
    if r.arenaIndex < 0 then None
    else if CoversAll(r, start, end) then Some(SlotRun(r.arenaIndex, RunToRelease(r)))
    else if r.liveLo < start && r.liveHi <= end && TrimsArena(r, start, end) then
      Some(SlotRun(r.arenaIndex + r.keepCount, r.arenaCount - r.keepCount))
    else None
  }

  function HeldRun(h: Holding): Option<SlotRun> {
    if h.Slots? then Some(SlotRun(h.first, h.count)) else None
  }

  // The slots an event passes to the release of the arena.
  function ReleasedRun(s: System, e: Event): Option<SlotRun>
    requires Enabled(s, e)
  {
    match e
    case AbandonMisaligned(id) => HeldRun(s.calls[id].holding)
    case GiveBack(id) => HeldRun(s.calls[id].holding)
    case Unmap(_, p, _) =>
      var i := HitIndex(s.m, p);
      if i < 0 then None else UnmappedRun(s.m.records[i], p, Min(UnmapEnd(e), Limit(s.m.records[i])))
    case _ => None
  }

  function HeldBlock(h: Holding): Option<nat> {
    if h.Block? then Some(h.base) else None
  }

  // The address an event passes to free.
  function FreedBlock(s: System, e: Event): Option<nat>
    requires Enabled(s, e)
  {
    match e
    case AbandonMisaligned(id) => HeldBlock(s.calls[id].holding)
    case AbandonFile(id) => Some(AddressOf(s, s.calls[id].holding))
    case GiveBack(id) => HeldBlock(s.calls[id].holding)
    case Free(id) => Some(s.calls[id].base)
    case _ => None
  }

  // The owner an event acts for.
  function Actor(s: System, e: Event): Owner {
    match e
    case Unmap(_, p, _) => (var i := HitIndex(s.m, p); Rec(if i < 0 then MMAP_SLOTS else i))
    case CountFallback => Rec(MMAP_SLOTS)
    case Reserve(id, _) => Op(id)
    case Allocate(id, _, _) => Op(id)
    case AbandonMisaligned(id) => Op(id)
    case AbandonFile(id) => Op(id)
    case Enter(id) => Op(id)
    case GiveBack(id) => Op(id)
    case Free(id) => Op(id)
  }

  /**
   Every slot that is passed to the release of the arena is in use at that moment and belongs to the
   record or the call that gives it back, and to nobody else; the run lies in the arena and is not empty.
   */
  lemma {:induction false} OnlyOwnSlotsReleased(s: System, e: Event, k: nat)
    requires Inv(s) && Enabled(s, e) && ReleasedRun(s, e).Some?
    ensures var run := ReleasedRun(s, e).value; 0 < run.count && run.first + run.count <= s.m.arenaSlots
    ensures ReleasedRun(s, e).value.Contains(k) ==>
      && Bit(s.m.arenaUsed, k) && OwnsSlot(s, Actor(s, e), k)
      && forall w: Owner :: OwnsSlot(s, w, k) ==> w == Actor(s, e)
  {
    match e {
      case Unmap(_, p, _) => assert RecordOk(s, s.m.records[HitIndex(s.m, p)]);
      case AbandonMisaligned(id) => assert CallOk(s, s.calls[id]);
      case GiveBack(id) => assert CallOk(s, s.calls[id]);
    }
    assert ReleasedRun(s, e).value.Contains(k) ==> OwnsSlot(s, Actor(s, e), k);
  }

  lemma {:induction false} UnmappedRunIsExact(s: System, i: nat, start: nat, end: nat, k: nat)
    requires i < |s.m.records| && Hit(s.m.records[i], start) && RecordOk(s, s.m.records[i]) && ArenaOk(s.m)
    ensures
      var run := UnmappedRun(s.m.records[i], start, end);
      Bit(UnmapRecord(s.m, i, start, end).arenaUsed, k) <==>
        Bit(s.m.arenaUsed, k) && !(run.Some? && run.value.Contains(k))
  {
    var run := UnmappedRun(s.m.records[i], start, end);
    if run.Some? { WithoutRunBits(s.m, run.value.first, run.value.count, k); }
  }

  /** The bitmap loses exactly the slots that were passed, and loses none in any other step. */
  lemma {:induction false} ReleaseIsExact(s: System, e: Event, k: nat)
    requires Inv(s) && Enabled(s, e) && !e.Reserve?
    ensures
      var run := ReleasedRun(s, e);
      Bit(Next(s, e).m.arenaUsed, k) <==> Bit(s.m.arenaUsed, k) && !(run.Some? && run.value.Contains(k))
  {
    var run := ReleasedRun(s, e);
    if e.Unmap? {
      var i := HitIndex(s.m, e.p);
      if i >= 0 { UnmappedRunIsExact(s, i, e.p, Min(UnmapEnd(e), Limit(s.m.records[i])), k); }
    } else if run.Some? {
      OnlyOwnSlotsReleased(s, e, k);
      WithoutRunBits(s.m, run.value.first, run.value.count, k);
    }
  }

  lemma {:induction false} ReserveOnlyAdds(s: System, e: Event, k: nat)
    requires Inv(s) && Enabled(s, e) && e.Reserve? && Bit(s.m.arenaUsed, k)
    ensures Bit(Next(s, e).m.arenaUsed, k) && ReleasedRun(s, e) == None
  {
    var count := e.req.ArenaCount();
    var first := TakeIndex(s.m, count);
    if first >= 0 { WithRunBits(s.m, first, count, k); }
  }

  /** An address that is passed to free is that of a live heap block and belongs to the call that frees it. */
  lemma {:induction false} OnlyOwnBlocksFreed(s: System, e: Event, b: nat)
    requires Inv(s) && Enabled(s, e) && FreedBlock(s, e) == Some(b)
    ensures b in s.heap && OwnsBlock(s, Actor(s, e), b)
    ensures forall w: Owner :: OwnsBlock(s, w, b) ==> w == Actor(s, e)
    ensures Next(s, e).heap == s.heap - {b}
  {
    if e.AbandonFile? { FileMemoryIsHeap(s, e.id); }
    assert OwnsBlock(s, Actor(s, e), b);
  }

  /** No other step takes a block off the heap. */
  lemma {:induction false} BlocksStay(s: System, e: Event, b: nat)
    requires Inv(s) && Enabled(s, e) && FreedBlock(s, e) == None && b in s.heap
    ensures b in Next(s, e).heap && Next(s, e).heap[b] == s.heap[b]
  {
    if e.Allocate? { AllocateBlocks(s, e); }
  }

  /** The misalignment branch of mmap is dead. */
  lemma {:induction false} MisalignedIsDead(s: System, id: nat)
    requires Inv(s)
    ensures !Enabled(s, AbandonMisaligned(id))
  {
    if id in s.calls { assert CallOk(s, s.calls[id]); }
  }

  // ---------------------------------------------------------------- the peak

  function HighestUse(s: System, es: seq<Event>): nat
    requires Runs(s, es)
    decreases |es|
  {
    if es == [] then PopCount(s.m.arenaUsed)
    else Max(PopCount(s.m.arenaUsed), HighestUse(Next(s, es[0]), es[1..]))
  }

  lemma {:induction false} StepPeak(s: System, e: Event)
    requires Inv(s) && Enabled(s, e)
    ensures Next(s, e).m.peakSlots == Max(s.m.peakSlots, PopCount(Next(s, e).m.arenaUsed))
  {
    StepKeeps(s, e);
    match e {
      case Enter(_) =>
      case Unmap(_, p, n) =>
        var i := HitIndex(s.m, p);
        if i >= 0 { UnmapRecordShape(s.m, i, p, Min(p + PageUp(n), Limit(s.m.records[i]))); }
      case _ =>
    }
  }

  lemma {:induction false} PeakFrom(s: System, es: seq<Event>)
    requires Inv(s) && Runs(s, es)
    ensures After(s, es).m.peakSlots == Max(s.m.peakSlots, HighestUse(s, es))
    decreases |es|
  {
    if es != [] {
      StepPeak(s, es[0]);
      StepKeeps(s, es[0]);
      PeakFrom(Next(s, es[0]), es[1..]);
    }
  }

  /** The peak counter is the largest number of slots that were ever in use at once. */
  lemma {:induction false} PeakIsHistoricalMaximum(s: System, es: seq<Event>)
    requires Initial(s) && Runs(s, es)
    ensures After(s, es).m.peakSlots == HighestUse(s, es)
  {
    InitialInv(s);
    PeakFrom(s, es);
  }

  // ---------------------------------------------------------------- which record an address hits

  // Address a lies in the memory that backs record r.
  predicate Backs(r: MmapSlot, a: nat) {
    r.used && r.base <= a < r.base + r.backingSize
  }

  // An address in a backed part of the arena names the slot it lies in.
  function SlotOf(m: MmapState, a: nat): nat
    requires m.arenaBase <= a
  {
    (a - m.arenaBase) / SLOT_BYTES
  }

  lemma {:induction false} BackedSlot(s: System, i: nat, a: nat)
    requires Inv(s) && i < |s.m.records| && Backs(s.m.records[i], a) && s.m.records[i].arenaIndex >= 0
    ensures s.m.arenaBase <= a < s.m.arenaBase + s.m.arenaSlots * SLOT_BYTES
    ensures OwnsSlot(s, Rec(i), SlotOf(s.m, a))
  {
    assert RecordOk(s, s.m.records[i]);
  }

  lemma {:induction false} BackedBlock(s: System, i: nat, a: nat)
    requires Inv(s) && i < |s.m.records| && Backs(s.m.records[i], a) && s.m.records[i].arenaIndex < 0
    ensures var b := s.m.records[i].base; OwnsBlock(s, Rec(i), b) && b in s.heap && b <= a < b + s.heap[b]
    ensures !(s.m.arenaBase <= a < s.m.arenaBase + s.m.arenaSlots * SLOT_BYTES)
  {
    assert RecordOk(s, s.m.records[i]);
    assert OwnsBlock(s, Rec(i), s.m.records[i].base);
  }

  /** The memory behind two records never overlaps. */
  lemma {:induction false} BackingsDisjoint(s: System, i: nat, j: nat, a: nat)
    requires Inv(s) && i < |s.m.records| && j < |s.m.records|
    requires Backs(s.m.records[i], a) && Backs(s.m.records[j], a)
    ensures i == j
  {
    if s.m.records[i].arenaIndex >= 0 {
      BackedSlot(s, i, a);
      if s.m.records[j].arenaIndex >= 0 { BackedSlot(s, j, a); } else { BackedBlock(s, j, a); }
    } else {
      BackedBlock(s, i, a);
      if s.m.records[j].arenaIndex >= 0 { BackedSlot(s, j, a); } else { BackedBlock(s, j, a); }
    }
  }

  // Record r claims address a although nothing of r's own memory is there.
  predicate Overhangs(r: MmapSlot, a: nat) {
    Hit(r, a) && r.base + r.backingSize <= a
  }

  /**
   A munmap at an address of record j's own memory works on record j exactly when no earlier
   record has an untrimmed window hanging over that address.
   */
  lemma {:induction false} UnmapFindsOwnRecord(s: System, j: nat, a: nat)
    requires Inv(s) && j < |s.m.records| && Hit(s.m.records[j], a) && Backs(s.m.records[j], a)
    ensures HitIndex(s.m, a) == j <==> forall i | 0 <= i < j :: !Overhangs(s.m.records[i], a)
  {
    var i := HitIndex(s.m, a);
    if i < j {
      assert RecordOk(s, s.m.records[i]);
      if !Overhangs(s.m.records[i], a) { BackingsDisjoint(s, i, j, a); }
    }
  }

  /** Once every live interval lies inside its memory, an address hits at most one record. */
  lemma {:induction false} TrimmedHitsAreUnique(s: System, i: nat, j: nat, a: nat)
    requires Inv(s) && i < |s.m.records| && j < |s.m.records|
    requires forall k | 0 <= k < |s.m.records| && s.m.records[k].used ::
               s.m.records[k].liveHi <= s.m.records[k].base + s.m.records[k].backingSize
    requires Hit(s.m.records[i], a) && Hit(s.m.records[j], a)
    ensures i == j
  {
    assert RecordOk(s, s.m.records[i]) && RecordOk(s, s.m.records[j]);
    BackingsDisjoint(s, i, j, a);
  }

  /** munmap changes no record but the one it hits, and strictly inside a live interval it changes nothing. */
  lemma {:induction false} UnmapTouchesOneRecord(s: System, e: Event)
    requires Inv(s) && e.Unmap? && Enabled(s, e)
    ensures
      var i, t := HitIndex(s.m, e.p), Next(s, e);
      && (forall k | 0 <= k < |s.m.records| && k != i :: t.m.records[k] == s.m.records[k])
      && (i < 0 ==> t == s)
      && (i >= 0 && s.m.records[i].liveLo < e.p && e.p + PageUp(e.n) < s.m.records[i].liveHi ==> t == s)
  {
    var i := HitIndex(s.m, e.p);
    if i >= 0 {
      assert RecordOk(s, s.m.records[i]);
      UnmapRecordShape(s.m, i, e.p, Min(UnmapEnd(e), Limit(s.m.records[i])));
    }
  }

  // ---------------------------------------------------------------- round trips

  // A reserve mapped and registered with nothing in between.
  function MappedReserve(s: System, id: nat, req: Request): System
    requires Enabled(s, Reserve(id, req)) && TakeIndex(s.m, req.ArenaCount()) >= 0
    requires Enabled(Next(s, Reserve(id, req)), Enter(id))
  {
    Next(Next(s, Reserve(id, req)), Enter(id))
  }

  predicate CanMapReserve(s: System, id: nat, req: Request) {
    && Enabled(s, Reserve(id, req)) && TakeIndex(s.m, req.ArenaCount()) >= 0 && FreeRecord(s.m) >= 0
    && Enabled(Next(s, Reserve(id, req)), Enter(id))
  }

  lemma {:induction false} MappedReserveIs(s: System, id: nat, req: Request)
    requires CanMapReserve(s, id, req)
    ensures
      var first := TakeIndex(s.m, req.ArenaCount());
      MappedReserve(s, id, req)
        == s.(m := Registered(
             WithRun(s.m, first, req.ArenaCount()), req, RunAddress(s.m, first), req.ArenaBacking(), first))
  {
    var reserved := Next(s, Reserve(id, req));
    assert reserved.calls - {id} == s.calls;
  }

  lemma {:induction false} ReserveAddress(m: MmapState, req: Request)
    requires ArenaOk(m) && req.Reserve() && TakeIndex(m, req.ArenaCount()) >= 0
    ensures
      var p := RunAddress(m, TakeIndex(m, req.ArenaCount()));
      p > 0 && p + req.logical < WORD && PageUp(req.logical) == req.logical
  {
  }

  lemma {:induction false} HitsOnly(m: MmapState, i: nat, a: nat)
    requires i < |m.records| && Hit(m.records[i], a)
    requires forall j | 0 <= j < i :: !Hit(m.records[j], a)
    ensures HitIndex(m, a) == i
  {
  }

  // What is left of a reserve that was mapped and unmapped again.
  function Restored(s: System, peak: nat, i: nat): System
    requires i < |s.m.records|
  {
    s.(m := s.m.(peakSlots := peak, records := s.m.records[i := UNUSED]))
  }

  lemma {:induction false} UnmapRestores(s: System, id: nat, req: Request, other: nat)
    requires Inv(s) && CanMapReserve(s, id, req) && other !in s.calls && other != id
    requires
      var p := RunAddress(s.m, TakeIndex(s.m, req.ArenaCount()));
      && (forall j | 0 <= j < FreeRecord(s.m) :: !Hit(s.m.records[j], p))
      && Enabled(MappedReserve(s, id, req), Unmap(other, p, req.logical))
    ensures
      var p := RunAddress(s.m, TakeIndex(s.m, req.ArenaCount()));
      var t := MappedReserve(s, id, req);
      Next(t, Unmap(other, p, req.logical)) == Restored(s, t.m.peakSlots, FreeRecord(s.m))
  {
    var first := TakeIndex(s.m, req.ArenaCount());
    var p := RunAddress(s.m, first);
    var i := FreeRecord(s.m);
    MappedReserveIs(s, id, req);
    ReserveAddress(s.m, req);
    HitsOnly(MappedReserve(s, id, req).m, i, p);
    TakeThenRelease(s.m, req.ArenaCount());
    assert s.m.records[i := NewRecord(req, p, req.ArenaBacking(), first)][i := UNUSED] == s.m.records[i := UNUSED];
  }

  // An unmap that hits an earlier record leaves record i in use.
  lemma {:induction false} UnmapMisses(s: System, e: Event, i: nat)
    requires e.Unmap? && Enabled(s, e) && i < |s.m.records| && s.m.records[i].used
    requires exists j :: 0 <= j < i && Hit(s.m.records[j], e.p)
    ensures |Next(s, e).m.records| == |s.m.records| && Next(s, e).m.records[i].used
  {
    var h := HitIndex(s.m, e.p);
    UnmapRecordShape(s.m, h, e.p, Min(UnmapEnd(e), Limit(s.m.records[h])));
  }

  /**
   The guest unmapping the whole of a reserve it has just mapped puts bitmap, records and accounting back
   as they were, if and only if no earlier record has a window over the address.
   */
  lemma {:induction false} MapThenUnmapRestores(s: System, id: nat, req: Request, other: nat)
    requires Inv(s) && CanMapReserve(s, id, req) && other !in s.calls && other != id
    ensures
      var p := RunAddress(s.m, TakeIndex(s.m, req.ArenaCount()));
      var t := MappedReserve(s, id, req);
      var i := FreeRecord(s.m);
      && Enabled(t, Unmap(other, p, req.logical))
      && (Next(t, Unmap(other, p, req.logical)) == Restored(s, t.m.peakSlots, i) <==>
            forall j | 0 <= j < i :: !Hit(s.m.records[j], p))
  {
    var first := TakeIndex(s.m, req.ArenaCount());
    var p := RunAddress(s.m, first);
    var i := FreeRecord(s.m);
    var t := MappedReserve(s, id, req);
    MappedReserveIs(s, id, req);
    ReserveAddress(s.m, req);
    if forall j | 0 <= j < i :: !Hit(s.m.records[j], p) {
      UnmapRestores(s, id, req, other);
    } else {
      var j :| 0 <= j < i && Hit(s.m.records[j], p);
      assert Hit(t.m.records[j], p);
      UnmapMisses(t, Unmap(other, p, req.logical), i);
    }
  }

  // Runs in which no munmap works on record i.
  predicate Untouched(s: System, es: seq<Event>, i: nat)
    decreases |es|
  {
    || es == []
    || (&& Enabled(s, es[0]) && !(es[0].Unmap? && HitIndex(s.m, es[0].p) == i)
        && Untouched(Next(s, es[0]), es[1..], i))
  }

  lemma {:induction false} RecordStays(s: System, e: Event, i: nat)
    requires Enabled(s, e) && i < |s.m.records| && s.m.records[i].used
    requires !(e.Unmap? && HitIndex(s.m, e.p) == i)
    ensures |Next(s, e).m.records| == |s.m.records| && Next(s, e).m.records[i] == s.m.records[i]
  {
    if e.Unmap? {
      var h := HitIndex(s.m, e.p);
      if h >= 0 { UnmapRecordShape(s.m, h, e.p, Min(UnmapEnd(e), Limit(s.m.records[h]))); }
    }
  }

  lemma {:induction false} RecordStaysOverRun(s: System, es: seq<Event>, i: nat)
    requires Untouched(s, es, i) && i < |s.m.records| && s.m.records[i].used
    ensures Runs(s, es) && |After(s, es).m.records| == |s.m.records|
    ensures After(s, es).m.records[i] == s.m.records[i]
    decreases |es|
  {
    if es != [] {
      RecordStays(s, es[0], i);
      RecordStaysOverRun(Next(s, es[0]), es[1..], i);
    }
  }

  lemma {:induction false} UnmapWholeRecord(t: System, unmap: Event, req: Request, h: Holding)
    requires TableOk(t) && unmap.Unmap? && Enabled(t, unmap) && HitIndex(t.m, unmap.p) >= 0
    requires t.m.records[HitIndex(t.m, unmap.p)] == NewRecord(req, unmap.p, BackingOf(req, h), IndexOf(h))
    requires req.logical <= PageUp(unmap.n)
    requires match h case Slots(_, count) => count == req.ArenaCount() case Block(b) => b == unmap.p
    ensures
      && ReleasedRun(t, unmap) == HeldRun(h)
      && Next(t, unmap).m.records == t.m.records[HitIndex(t.m, unmap.p) := UNUSED]
      && match h
         case Slots(_, _) => Next(t, unmap).calls == t.calls
         case Block(b) => Next(t, unmap).calls == t.calls[unmap.id := Freeing(b)]
  {
    assert RecordOk(t, t.m.records[HitIndex(t.m, unmap.p)]);
  }

  /**
   Whatever all the calls do between a mapping being entered and its owner unmapping the whole of it, the
   munmap that works on its record gives back exactly the memory that the mapping had: the run of slots it
   took, or the heap block it was handed, and the record is free again.
   */
  lemma {:induction false} WholeUnmapGivesBack(s: System, id: nat, es: seq<Event>, unmap: Event)
    requires Inv(s) && Enabled(s, Enter(id)) && FreeRecord(s.m) >= 0
    requires Untouched(Next(s, Enter(id)), es, FreeRecord(s.m)) && Runs(Next(s, Enter(id)), es)
    requires
      var t := After(Next(s, Enter(id)), es);
      && unmap.Unmap? && Enabled(t, unmap) && HitIndex(t.m, unmap.p) == FreeRecord(s.m)
      && unmap.p == AddressOf(s, s.calls[id].holding) && s.calls[id].req.logical <= PageUp(unmap.n)
    ensures
      var t, i := After(Next(s, Enter(id)), es), FreeRecord(s.m);
      && ReleasedRun(t, unmap) == HeldRun(s.calls[id].holding)
      && Next(t, unmap).m.records == t.m.records[i := UNUSED]
      && match s.calls[id].holding
         case Slots(_, _) => Next(t, unmap).calls == t.calls
         case Block(b) => Next(t, unmap).calls == t.calls[unmap.id := Freeing(b)]
  {
    var i := FreeRecord(s.m);
    var entered := Next(s, Enter(id));
    assert CallOk(s, s.calls[id]);
    RecordStaysOverRun(entered, es, i);
    EnterKeeps(s, Enter(id));
    RunKeeps(entered, es);
    UnmapWholeRecord(After(entered, es), unmap, s.calls[id].req, s.calls[id].holding);
  }

  const ALIGNED256_REQUEST := Request(ALIGNED256_RESERVE, false)

  /** Trimming the 256 MiB + 64 MiB reserve gives back its fifth slot and keeps the other four. */
  lemma {:induction false} TrimReleasesFifthSlot(s: System, i: nat, k: nat)
    requires Inv(s) && i < |s.m.records| && s.m.records[i].arenaIndex >= 0
    requires
      var r := s.m.records[i];
      r == NewRecord(ALIGNED256_REQUEST, r.base, 5 * SLOT_BYTES, r.arenaIndex)
    requires HitIndex(s.m, s.m.records[i].base + 4 * SLOT_BYTES) == i
    ensures
      var r := s.m.records[i];
      var m := Unmapped(s.m, r.base + 4 * SLOT_BYTES, r.base + ALIGNED256_RESERVE);
      && (Bit(m.arenaUsed, k) <==> Bit(s.m.arenaUsed, k) && k != r.arenaIndex + 4)
      && m.records
           == s.m.records[i := r.(liveHi := r.base + 4 * SLOT_BYTES, arenaCount := 4, backingSize := 4 * SLOT_BYTES)]
      && m.backingBytes == s.m.backingBytes - SLOT_BYTES
  {
    var r := s.m.records[i];
    assert RecordOk(s, r);
    WithoutRunBits(s.m, r.arenaIndex + 4, 1, k);
    SumBackingAtLeast(s.m.records, i);
  }

  // ---------------------------------------------------------------- untrimmed windows

  const WINDOW_REQUEST := Request(DYNAMIC_RESERVE, false)
  const EXAMPLE_BASE: nat := 0x1_0000_0000

  // Two slots, nothing mapped.
  const EXAMPLE_START := System(
    MmapState(seq(MMAP_SLOTS, i => BLANK), 0, EXAMPLE_BASE, 2, 0, 0, 0), map[], map[])

  function ExampleWindow(first: nat): MmapSlot {
    NewRecord(WINDOW_REQUEST, EXAMPLE_BASE + first * SLOT_BYTES, SLOT_BYTES, first)
  }

  lemma {:induction false} ExampleMasks()
    ensures ArenaMask(0, 1) == 1 && ArenaMask(1, 1) == 2
  {
    assert Pow2(0) == 1 && Pow2(1) == 2;
  }

  lemma {:induction false} ExampleAnds()
    ensures And(0, 1) == 0 && And(1, 1) == 1 && And(1, 2) == 0
  {
    assert And(0, 0) == 0 && And(1, 1) == 2 * And(0, 0) + 1;
    assert And(1, 2) == 2 * And(0, 1);
  }

  lemma {:induction false} ExampleOrs()
    ensures Or(0, 1) == 1 && Or(1, 2) == 3
  {
    assert Or(1, 2) == 2 * Or(0, 1) + 1;
  }

  lemma {:induction false} ExampleBits()
    ensures ArenaMask(0, 1) == 1 && ArenaMask(1, 1) == 2
    ensures And(0, 1) == 0 && And(1, 1) == 1 && And(1, 2) == 0
    ensures Or(0, 1) == 1 && Or(1, 2) == 3
  {
    ExampleMasks();
    ExampleAnds();
    ExampleOrs();
  }

  lemma {:induction false} ExampleTake(m: MmapState, i: nat)
    requires m.arenaBase == EXAMPLE_BASE && m.arenaSlots == 2 && m.arenaUsed == i && i < 2
    ensures TakeIndex(m, 1) == i && WithRun(m, i, 1).arenaUsed == 2 * i + 1
  {
    ExampleBits();
    if i == 0 {
      assert RunFree(m.arenaUsed, 0, 1);
    } else {
      assert !RunFree(m.arenaUsed, 0, 1) && RunFree(m.arenaUsed, 1, 1);
    }
  }

  lemma {:induction false} ExampleMapping(s: System, id: nat, i: nat)
    requires s.m.arenaBase == EXAMPLE_BASE && s.m.arenaSlots == 2 && s.m.arenaUsed == i && i < 2
    requires id !in s.calls && |s.m.records| == MMAP_SLOTS && FreeRecord(s.m) == i
    ensures CanMapReserve(s, id, WINDOW_REQUEST)
    ensures
      var t := MappedReserve(s, id, WINDOW_REQUEST);
      && t.m.records == s.m.records[i := ExampleWindow(i)] && t.m.arenaUsed == 2 * i + 1
      && t.m.arenaBase == EXAMPLE_BASE && t.m.arenaSlots == 2 && t.calls == s.calls
  {
    ExampleTake(s.m, i);
    assert WINDOW_REQUEST.ArenaCount() == 1;
    MappedReserveIs(s, id, WINDOW_REQUEST);
  }

  lemma {:induction false} ExampleUnmap(s: System)
    requires |s.m.records| == MMAP_SLOTS && s.m.records[0] == ExampleWindow(0) && 3 !in s.calls
    ensures Enabled(s, Unmap(3, EXAMPLE_BASE + SLOT_BYTES, DYNAMIC_RESERVE))
    ensures
      Next(s, Unmap(3, EXAMPLE_BASE + SLOT_BYTES, DYNAMIC_RESERVE))
        == s.(m := s.m.(records := s.m.records[0 := ExampleWindow(0).(liveHi := EXAMPLE_BASE + SLOT_BYTES)]))
  {
    assert HitIndex(s.m, EXAMPLE_BASE + SLOT_BYTES) == 0;
  }

  lemma {:induction false} RunsCons(s: System, e: Event, es: seq<Event>)
    requires Enabled(s, e) && Runs(Next(s, e), es)
    ensures Runs(s, [e] + es) && After(s, [e] + es) == After(Next(s, e), es)
  {
    assert ([e] + es)[1..] == es;
  }

  lemma {:induction false} RunsMapping(s: System, id: nat, rest: seq<Event>) returns (es: seq<Event>)
    requires CanMapReserve(s, id, WINDOW_REQUEST) && Runs(MappedReserve(s, id, WINDOW_REQUEST), rest) && rest != []
    ensures Runs(s, es) && After(s, es) == After(MappedReserve(s, id, WINDOW_REQUEST), rest)
    ensures es != [] && es[|es| - 1] == rest[|rest| - 1]
  {
    var reserved := Next(s, Reserve(id, WINDOW_REQUEST));
    RunsCons(reserved, Enter(id), rest);
    RunsCons(s, Reserve(id, WINDOW_REQUEST), [Enter(id)] + rest);
    es := [Reserve(id, WINDOW_REQUEST)] + ([Enter(id)] + rest);
  }

  // The states after one window and after two.
  lemma {:induction false} ExampleWindows() returns (s2: System, s4: System)
    ensures CanMapReserve(EXAMPLE_START, 1, WINDOW_REQUEST) && s2 == MappedReserve(EXAMPLE_START, 1, WINDOW_REQUEST)
    ensures CanMapReserve(s2, 2, WINDOW_REQUEST) && s4 == MappedReserve(s2, 2, WINDOW_REQUEST)
    ensures |s4.m.records| == MMAP_SLOTS && s4.calls == map[] && s4.m.arenaUsed == 3
    ensures s4.m.records[0] == ExampleWindow(0) && s4.m.records[1] == ExampleWindow(1)
  {
    ExampleMapping(EXAMPLE_START, 1, 0);
    s2 := MappedReserve(EXAMPLE_START, 1, WINDOW_REQUEST);
    assert FreeRecordFrom(s2.m.records, 1) == 1;
    ExampleMapping(s2, 2, 1);
    s4 := MappedReserve(s2, 2, WINDOW_REQUEST);
  }

  /**
   Before the guest trims its windows the guarantee fails: of two windows mapped one after the
   other, unmapping the second hits the record of the first and leaves the second one mapped.
   */
  lemma {:induction false} UntrimmedWindowsShadow() returns (es: seq<Event>, t: System)
    ensures Initial(EXAMPLE_START) && Runs(EXAMPLE_START, es) && t == After(EXAMPLE_START, es)
    ensures es != [] && es[|es| - 1] == Unmap(3, EXAMPLE_BASE + SLOT_BYTES, DYNAMIC_RESERVE)
    ensures |t.m.records| == MMAP_SLOTS && t.m.records[1] == ExampleWindow(1) && t.m.arenaUsed == 3
    ensures t.m.records[0] == ExampleWindow(0).(liveHi := EXAMPLE_BASE + SLOT_BYTES)
  {
    var unmap := Unmap(3, EXAMPLE_BASE + SLOT_BYTES, DYNAMIC_RESERVE);
    var s2, s4 := ExampleWindows();
    ExampleUnmap(s4);
    t := Next(s4, unmap);
    es := [unmap];
    es := RunsMapping(s2, 2, es);
    es := RunsMapping(EXAMPLE_START, 1, es);
  }
}
