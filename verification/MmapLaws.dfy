/**
 What a guest can rely on: which addresses stay live and which are backed by memory, over every
 interleaving of mmap and munmap calls.
 */
module MmapLaws {
  import opened Common
  import opened Bits
  import opened MmapModel
  import opened MmapProtocol
  import opened MmapSafety

  // ---------------------------------------------------------------- what a mapping gets

  /** Exactly three anonymous sizes are served from the arena: 64 MiB, 128 MiB less a page, 320 MiB less a page. */
  lemma ReservedSizes(logical: nat, fileBacked: bool)
    ensures
      var req := Request(logical, fileBacked);
      && (req.Reserve() <==> !fileBacked && logical in {0x0400_0000, 0x07ff_f000, 0x13ff_f000})
      && (req.Reserve() ==> req.ArenaCount() == if logical == 0x13ff_f000 then 5 else 1)
      && (req.Reserve() ==> req.KeepCount() == if logical == 0x13ff_f000 then 4 else 1)
      && (req.Reserve() ==> req.HeapAlignment() == 0x0400_0000)
  {
  }

  function Fallbacks(es: seq<Event>): nat {
    if es == [] then 0 else (if es[0].CountFallback? then 1 else 0) + Fallbacks(es[1..])
  }

  lemma {:induction false} OthersKeepFallbacks(s: System, e: Event)
    requires Enabled(s, e) && !e.CountFallback?
    ensures Next(s, e).m.fallbackCount == s.m.fallbackCount
  {
    if e.Unmap? {
      var i := HitIndex(s.m, e.p);
      if i >= 0 { UnmapRecordShape(s.m, i, e.p, Min(UnmapEnd(e), Limit(s.m.records[i]))); }
    }
  }

  /** The fallback counter counts the fallbacks of all calls, and nothing else changes it. */
  lemma {:induction false} FallbacksAreCounted(s: System, es: seq<Event>)
    requires Runs(s, es)
    ensures After(s, es).m.fallbackCount == s.m.fallbackCount + Fallbacks(es)
    decreases |es|
  {
    if es != [] {
      if !es[0].CountFallback? { OthersKeepFallbacks(s, es[0]); }
      FallbacksAreCounted(Next(s, es[0]), es[1..]);
    }
  }

  predicate IsWindow(r: MmapSlot) { r.alignedReserve && r.keepCount == 1 }

  /**
   A mapping is live at exactly the addresses asked for.  All of them are backed by memory, except in a
   window, of which exactly the first slot is; a window or a direct mapping takes exactly one slot, and any
   other run of the arena is the shortest that covers the mapping.
   */
  lemma {:induction false} EnteredMapping(s: System, id: nat, x: nat)
    requires Inv(s) && Enabled(s, Enter(id)) && FreeRecord(s.m) >= 0
    ensures
      var c := s.calls[id];
      var p, r := AddressOf(s, c.holding), Next(s, Enter(id)).m.records[FreeRecord(s.m)];
      && (Hit(r, x) <==> p <= x < p + c.req.logical)
      && (if c.req.Window() then Backs(r, x) <==> p <= x < p + SLOT_BYTES else Hit(r, x) ==> Backs(r, x))
      && (c.req.Window() || c.req.Direct() ==>
            r.backingSize == SLOT_BYTES && (c.holding.Slots? ==> c.holding.count == 1))
      && (c.holding.Slots? && !c.req.Window() ==>
            (c.holding.count - 1) * SLOT_BYTES < c.req.logical <= c.holding.count * SLOT_BYTES)
      && (IsWindow(r) <==> c.req.Window())
  {
    assert CallOk(s, s.calls[id]);
  }

  // Every live address outside a window has memory.
  ghost predicate LiveIsBacked(records: seq<MmapSlot>) {
    forall i | 0 <= i < |records| && records[i].used && !IsWindow(records[i]) ::
      records[i].liveHi <= records[i].base + records[i].backingSize
  }

  lemma {:induction false} EnterKeepsBacked(s: System, id: nat)
    requires Inv(s) && Enabled(s, Enter(id)) && LiveIsBacked(s.m.records)
    ensures LiveIsBacked(Next(s, Enter(id)).m.records)
  {
    assert CallOk(s, s.calls[id]);
  }

  lemma {:induction false} RecordKeepsBacked(s: System, i: nat, start: nat, end: nat)
    requires i < |s.m.records| && Hit(s.m.records[i], start) && RecordOk(s, s.m.records[i])
    requires end == Min(end, Limit(s.m.records[i])) && start < end
    requires !IsWindow(s.m.records[i]) ==>
      s.m.records[i].liveHi <= s.m.records[i].base + s.m.records[i].backingSize
    ensures
      var r := UnmapRecord(s.m, i, start, end).records[i];
      r.used && !IsWindow(r) ==> r.liveHi <= r.base + r.backingSize
  {
  }

  lemma {:induction false} UnmapKeepsBacked(s: System, e: Event)
    requires Inv(s) && e.Unmap? && Enabled(s, e) && LiveIsBacked(s.m.records)
    ensures LiveIsBacked(Next(s, e).m.records)
  {
    var i := HitIndex(s.m, e.p);
    if i >= 0 {
      var end := Min(UnmapEnd(e), Limit(s.m.records[i]));
      assert RecordOk(s, s.m.records[i]);
      RecordKeepsBacked(s, i, e.p, end);
      UnmapRecordShape(s.m, i, e.p, end);
    }
  }

  lemma {:induction false} BackedOverRun(s: System, es: seq<Event>)
    requires Inv(s) && Runs(s, es) && LiveIsBacked(s.m.records)
    ensures LiveIsBacked(After(s, es).m.records)
    decreases |es|
  {
    if es != [] {
      if es[0].Enter? { EnterKeepsBacked(s, es[0].id); } else if es[0].Unmap? { UnmapKeepsBacked(s, es[0]); }
      StepKeeps(s, es[0]);
      BackedOverRun(Next(s, es[0]), es[1..]);
    }
  }

  /**
   Over every run from the start, every live address of a mapping that is not a window lies in memory that
   its record holds: no trim and no interleaving takes memory from under a live address.
   */
  lemma {:induction false} LiveMemoryIsBacked(s: System, es: seq<Event>, i: nat, x: nat)
    requires Initial(s) && Runs(s, es) && i < |After(s, es).m.records|
    requires var r := After(s, es).m.records[i]; Hit(r, x) && !IsWindow(r)
    ensures Backs(After(s, es).m.records[i], x)
  {
    InitialInv(s);
    BackedOverRun(s, es);
    RunKeeps(s, es);
    assert RecordOk(After(s, es), After(s, es).m.records[i]);
  }

  // ---------------------------------------------------------------- unmapping

  lemma {:induction false} RecordKeepsLiveMemory(m: MmapState, i: nat, start: nat, end: nat, x: nat)
    requires i < |m.records| && Hit(m.records[i], start) && Backs(m.records[i], x)
    requires m.records[i].liveHi <= Limit(m.records[i])
    requires Hit(UnmapRecord(m, i, start, Min(end, Limit(m.records[i]))).records[i], x)
    ensures Backs(UnmapRecord(m, i, start, Min(end, Limit(m.records[i]))).records[i], x)
  {
  }

  lemma {:induction false} SectionTakesNoLiveMemory(m: MmapState, start: nat, end: nat, i: nat, x: nat)
    requires i < |m.records| && m.records[i].liveHi <= Limit(m.records[i])
    requires Backs(m.records[i], x) && Hit(Unmapped(m, start, end).records[i], x)
    ensures Backs(Unmapped(m, start, end).records[i], x)
  {
    var h := HitIndex(m, start);
    if h == i {
      RecordKeepsLiveMemory(m, i, start, end, x);
    } else if h >= 0 {
      UnmapRecordShape(m, h, start, Min(end, Limit(m.records[h])));
    }
  }

  /** Whatever the section of munmap does to a record, no address that stays live loses memory it had. */
  lemma {:induction false} UnmapTakesNoLiveMemory(s: System, e: Event, i: nat, x: nat)
    requires Inv(s) && e.Unmap? && Enabled(s, e) && i < |s.m.records|
    requires Backs(s.m.records[i], x) && Hit(Next(s, e).m.records[i], x)
    ensures Backs(Next(s, e).m.records[i], x)
  {
    assert RecordOk(s, s.m.records[i]);
    SectionTakesNoLiveMemory(s.m, e.p, UnmapEnd(e), i, x);
  }

  /** The step of munmap takes exactly its range from the live addresses of the first record it hits. */
  lemma {:induction false} UnmapStepLosesRange(s: System, e: Event)
    requires e.Unmap? && Enabled(s, e)
    ensures LosesRange(s.m.records, Next(s, e).m.records, e.p, UnmapEnd(e))
  {
    UnmapLosesRange(s.m, e.p, UnmapEnd(e));
  }

  // Two calls that unmap a mapping in adjacent pieces, and one that unmaps it whole.
  ghost predicate InPieces(s: System, i: nat, head: Event, tail: Event, whole: Event) {
    && i < |s.m.records| && s.m.records[i].used
    && head.Unmap? && tail.Unmap? && whole.Unmap? && head.id == tail.id == whole.id
    && Enabled(s, head) && Enabled(s, tail) && Enabled(s, whole)
    && head.p == whole.p == s.m.records[i].liveLo
    && UnmapEnd(head) == tail.p && s.m.records[i].liveLo < tail.p < s.m.records[i].liveHi
    && s.m.records[i].liveHi <= UnmapEnd(tail) == UnmapEnd(whole)
    && HitIndex(s.m, head.p) == i && HitIndex(s.m, tail.p) == i
  }

  lemma {:induction false} HitStays(m: MmapState, i: nat, r: MmapSlot, a: nat)
    requires i < |m.records| && HitIndex(m, a) == i && Hit(r, a)
    ensures HitIndex(m.(records := m.records[i := r]), a) == i
  {
    var t := m.(records := m.records[i := r]);
    assert forall j | 0 <= j < i :: t.records[j] == m.records[j] && !Hit(m.records[j], a);
    HitsOnly(t, i, a);
  }

  /**
   Unmapping a mapping in two adjacent pieces, the first piece first, leaves exactly the state that
   unmapping it whole leaves: record, total, slots and the block to be freed.
   */
  lemma {:induction false} HeadThenTail(s: System, i: nat, head: Event, tail: Event, whole: Event)
    requires Inv(s) && InPieces(s, i, head, tail, whole)
    ensures Enabled(Next(s, head), tail) && Next(Next(s, head), tail) == Next(s, whole)
  {
    var r := s.m.records[i];
    assert RecordOk(s, r);
    var cut := r.(liveLo := tail.p);
    assert Next(s, head) == s.(m := s.m.(records := s.m.records[i := cut]));
    HitStays(s.m, i, cut, tail.p);
    assert s.m.records[i := cut][i := UNUSED] == s.m.records[i := UNUSED];
  }

  lemma {:induction false} TwoReleases(m: MmapState, first: nat, keep: nat, count: nat)
    requires 0 < keep < count && first + count <= ARENA_MAX_SLOTS
    ensures WithoutRun(WithoutRun(m, first + keep, count - keep), first, keep) == WithoutRun(m, first, count)
  {
    var part := WithoutRun(m, first + keep, count - keep);
    var twice, once := WithoutRun(part, first, keep), WithoutRun(m, first, count);
    forall k: nat ensures Bit(twice.arenaUsed, k) <==> Bit(once.arenaUsed, k) {
      WithoutRunBits(m, first + keep, count - keep, k);
      WithoutRunBits(part, first, keep, k);
      WithoutRunBits(m, first, count, k);
    }
    Extensional(twice.arenaUsed, once.arenaUsed);
  }

  lemma {:induction false} PlainTailThenHead(s: System, i: nat, head: Event, tail: Event, whole: Event)
    requires Inv(s) && InPieces(s, i, head, tail, whole)
    requires !TrimsArena(s.m.records[i], tail.p, Min(UnmapEnd(tail), Limit(s.m.records[i])))
    ensures Enabled(Next(s, tail), head) && Next(Next(s, tail), head) == Next(s, whole)
  {
    var r := s.m.records[i];
    assert RecordOk(s, r);
    var cut := r.(liveHi := tail.p);
    assert Next(s, tail) == s.(m := s.m.(records := s.m.records[i := cut]));
    HitStays(s.m, i, cut, head.p);
    assert s.m.records[i := cut][i := UNUSED] == s.m.records[i := UNUSED];
  }

  // Record i and the total once the slots above the ones to keep are trimmed off.
  function TrimmedRecord(r: MmapSlot, at: nat): MmapSlot {
    r.(liveHi := at, arenaCount := r.keepCount, backingSize := r.keepCount * SLOT_BYTES)
  }

  lemma {:induction false} TrimStep(s: System, i: nat, tail: Event, cut: MmapSlot)
    requires Inv(s) && i < |s.m.records| && tail.Unmap? && Enabled(s, tail) && HitIndex(s.m, tail.p) == i
    requires s.m.records[i].liveLo < tail.p && s.m.records[i].liveHi <= UnmapEnd(tail)
    requires TrimsArena(s.m.records[i], tail.p, Min(UnmapEnd(tail), Limit(s.m.records[i])))
    requires cut == TrimmedRecord(s.m.records[i], tail.p)
    ensures
      var r := s.m.records[i];
      && cut.backingSize <= r.backingSize <= s.m.backingBytes
      && Next(s, tail) == s.(m := WithoutRun(
           s.m.(records := s.m.records[i := cut], backingBytes := s.m.backingBytes - (r.backingSize - cut.backingSize)),
           r.arenaIndex + r.keepCount, r.arenaCount - r.keepCount))
  {
    assert RecordOk(s, s.m.records[i]);
    SumBackingAtLeast(s.m.records, i);
  }

  lemma {:induction false} WholeStep(s: System, i: nat, whole: Event)
    requires Inv(s) && i < |s.m.records| && whole.Unmap? && Enabled(s, whole) && HitIndex(s.m, whole.p) == i
    requires whole.p == s.m.records[i].liveLo && s.m.records[i].liveHi <= UnmapEnd(whole)
    requires s.m.records[i].arenaIndex >= 0
    ensures
      var r := s.m.records[i];
      && r.backingSize <= s.m.backingBytes
      && Next(s, whole) == s.(m := WithoutRun(
           s.m.(records := s.m.records[i := UNUSED], backingBytes := s.m.backingBytes - r.backingSize),
           r.arenaIndex, r.arenaCount))
  {
    assert RecordOk(s, s.m.records[i]);
    SumBackingAtLeast(s.m.records, i);
  }

  lemma {:induction false} TrimmedState(s: System, i: nat, head: Event, tail: Event, whole: Event)
    requires Inv(s) && InPieces(s, i, head, tail, whole)
    requires TrimsArena(s.m.records[i], tail.p, Min(UnmapEnd(tail), Limit(s.m.records[i])))
    ensures
      var t, cut := Next(s, tail), TrimmedRecord(s.m.records[i], tail.p);
      && Inv(t) && Enabled(t, head) && |t.m.records| == |s.m.records|
      && t.m.records[i] == cut && HitIndex(t.m, head.p) == i
  {
    var cut := TrimmedRecord(s.m.records[i], tail.p);
    TrimStep(s, i, tail, cut);
    UnmapKeeps(s, tail);
    HitStays(s.m, i, cut, head.p);
    assert Next(s, tail).m.records == s.m.records[i := cut];
  }

  // The two changes to the table one after the other, and the one change.
  lemma TwoUnmaps(m: MmapState, i: nat, r: MmapSlot, cut: MmapSlot)
    requires i < |m.records| && r.arenaIndex >= 0 && 0 < r.keepCount < r.arenaCount
    requires r.arenaIndex + r.arenaCount <= ARENA_MAX_SLOTS && cut.backingSize <= r.backingSize <= m.backingBytes
    ensures
      var trimmed := WithoutRun(
        m.(records := m.records[i := cut], backingBytes := m.backingBytes - (r.backingSize - cut.backingSize)),
        r.arenaIndex + r.keepCount, r.arenaCount - r.keepCount);
      && trimmed.records == m.records[i := cut] && cut.backingSize <= trimmed.backingBytes
      && WithoutRun(
           trimmed.(records := trimmed.records[i := UNUSED], backingBytes := trimmed.backingBytes - cut.backingSize),
           r.arenaIndex, r.keepCount)
         == WithoutRun(m.(records := m.records[i := UNUSED], backingBytes := m.backingBytes - r.backingSize),
                       r.arenaIndex, r.arenaCount)
  {
    assert m.records[i := cut][i := UNUSED] == m.records[i := UNUSED];
    var clear := m.(records := m.records[i := UNUSED], backingBytes := m.backingBytes - r.backingSize);
    TwoReleases(clear, r.arenaIndex, r.keepCount, r.arenaCount);
  }

  // Unmapping the kept slots after the others were trimmed off.
  lemma {:induction false} TrimThenHead(s: System, i: nat, head: Event, tail: Event, whole: Event)
    requires Inv(s) && InPieces(s, i, head, tail, whole)
    requires TrimsArena(s.m.records[i], tail.p, Min(UnmapEnd(tail), Limit(s.m.records[i])))
    ensures Enabled(Next(s, tail), head) && Next(Next(s, tail), head) == Next(s, whole)
  {
    var r := s.m.records[i];
    var cut := TrimmedRecord(r, tail.p);
    assert RecordOk(s, r);
    TrimStep(s, i, tail, cut);
    TrimmedState(s, i, head, tail, whole);
    WholeStep(Next(s, tail), i, head);
    WholeStep(s, i, whole);
    TwoUnmaps(s.m, i, r, cut);
  }

  /** The last piece first leaves the same state, whether or not it trims slots of the arena. */
  lemma {:induction false} TailThenHead(s: System, i: nat, head: Event, tail: Event, whole: Event)
    requires Inv(s) && InPieces(s, i, head, tail, whole)
    ensures Enabled(Next(s, tail), head) && Next(Next(s, tail), head) == Next(s, whole)
  {
    if TrimsArena(s.m.records[i], tail.p, Min(UnmapEnd(tail), Limit(s.m.records[i]))) {
      TrimThenHead(s, i, head, tail, whole);
    } else {
      PlainTailThenHead(s, i, head, tail, whole);
    }
  }

  // ---------------------------------------------------------------- every call can finish

  // A step that call id takes once it has memory in hand.
  predicate Finishing(e: Event, id: nat) { e == Enter(id) || e == GiveBack(id) || e == Free(id) }

  lemma OneStep(s: System, e: Event)
    requires Enabled(s, e)
    ensures Runs(s, [e]) && After(s, [e]) == Next(s, e)
  {
    assert [e][1..] == [];
  }

  lemma TwoSteps(s: System, d: Event, e: Event)
    requires Enabled(s, d) && Enabled(Next(s, d), e)
    ensures Runs(s, [d, e]) && After(s, [d, e]) == Next(Next(s, d), e)
  {
    assert [d, e][1..] == [e];
    OneStep(Next(s, d), e);
  }

  /** A call with memory in hand can always finish by itself, in at most two more steps, whatever the others left. */
  lemma {:induction false} CallFinishes(s: System, id: nat) returns (es: seq<Event>)
    requires Inv(s) && id in s.calls
    ensures Runs(s, es) && |es| <= 2 && (forall k | 0 <= k < |es| :: Finishing(es[k], id))
    ensures id !in After(s, es).calls
  {
    var c := s.calls[id];
    assert CallOk(s, c);
    if c.Freeing? {
      es := [Free(id)];
      OneStep(s, Free(id));
    } else if c.Rejected? {
      es := [GiveBack(id)];
      OneStep(s, GiveBack(id));
    } else if FreeRecord(s.m) >= 0 {
      es := [Enter(id)];
      OneStep(s, Enter(id));
    } else {
      es := [Enter(id), GiveBack(id)];
      TwoSteps(s, Enter(id), GiveBack(id));
    }
  }

  /** A request that heap memory serves is entered with exactly that block, if a record is free. */
  lemma {:induction false} HeapServes(s: System, id: nat, req: Request, p: nat)
    requires Inv(s) && id !in s.calls && req.Ok() && AllocatorMayReturn(s, req, p) && FreeRecord(s.m) >= 0
    ensures
      var es, i := [Allocate(id, req, p), Enter(id)], FreeRecord(s.m);
      && Runs(s, es)
      && After(s, es).m.records == s.m.records[i := NewRecord(req, p, req.HeapBacking(), -1)]
      && After(s, es).m.arenaUsed == s.m.arenaUsed && After(s, es).calls == s.calls
      && After(s, es).heap == s.heap[p := req.HeapBacking()]
  {
    var d, e := Allocate(id, req, p), Enter(id);
    assert Next(s, d).calls - {id} == s.calls;
    TwoSteps(s, d, e);
  }

  /** After a failed file read the heap block is gone again, and so is the call. */
  lemma {:induction false} FileErrorEnds(s: System, id: nat, req: Request, p: nat)
    requires Inv(s) && id !in s.calls && req.Ok() && AllocatorMayReturn(s, req, p) && req.fileBacked
    ensures
      var es := [Allocate(id, req, p), AbandonFile(id)];
      Runs(s, es) && After(s, es) == s
  {
    var d, e := Allocate(id, req, p), AbandonFile(id);
    AllocateBlocks(s, d);
    assert Next(s, d).calls - {id} == s.calls && Next(s, d).heap - {p} == s.heap;
    TwoSteps(s, d, e);
  }
}
