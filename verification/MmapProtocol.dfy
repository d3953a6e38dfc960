/**
 Concurrent mmap and munmap calls.  Each event is one section under the mapping lock or one
 foreign call between sections, so a run of events is an arbitrary interleaving of calls:
 slots can be reserved by a call that has not registered its record yet, and a heap block can
 be unlisted but not freed yet.
 */
module MmapProtocol {
  import opened Common
  import opened Bits
  import opened MmapModel

  datatype Holding =
    | Slots(first: nat, count: nat)
    | Block(base: nat)

  // Where a call stands between two sections.
  datatype Call =
    | Reserved(req: Request, holding: Holding)   // has memory, record not entered yet
    | Rejected(holding: Holding)                 // no record was free: memory to be given back
    | Freeing(base: nat)                         // munmap took the record out, free() outstanding

  datatype System = System(m: MmapState, calls: map<nat, Call>, heap: map<nat, nat>)

  datatype Event =
    | Reserve(id: nat, req: Request)
    | Allocate(id: nat, req: Request, p: nat)
    | CountFallback
    | AbandonMisaligned(id: nat)
    | AbandonFile(id: nat)
    | Enter(id: nat)
    | GiveBack(id: nat)
    | Unmap(id: nat, p: nat, n: nat)
    | Free(id: nat)

  // ---------------------------------------------------------------- steps

  // memalign returns an aligned block that overlaps nothing handed out before.
  predicate AllocatorMayReturn(s: System, req: Request, p: nat) {
    && p != 0 && p % req.HeapAlignment() == 0 && p + req.HeapBacking() <= ADDRESS_TOP
    && (forall b | b in s.heap :: p + req.HeapBacking() <= b || b + s.heap[b] <= p)
    && (p + req.HeapBacking() <= s.m.arenaBase || s.m.arenaBase + s.m.arenaSlots * SLOT_BYTES <= p)
  }

  function AddressOf(s: System, h: Holding): nat {
    match h
    case Slots(first, _) => RunAddress(s.m, first)
    case Block(base) => base
  }

  predicate Enabled(s: System, e: Event) {
    match e
    case Reserve(id, req) => id !in s.calls && req.Ok() && req.Reserve()
    case Allocate(id, req, p) => id !in s.calls && req.Ok() && AllocatorMayReturn(s, req, p)
    case CountFallback => true
    case AbandonMisaligned(id) =>
      && id in s.calls && s.calls[id].Reserved? && s.calls[id].req.Reserve()
      && AddressOf(s, s.calls[id].holding) % SLOT_BYTES != 0
    case AbandonFile(id) => id in s.calls && s.calls[id].Reserved? && s.calls[id].req.fileBacked
    case Enter(id) =>
      && id in s.calls && s.calls[id].Reserved?
      && (s.calls[id].req.Reserve() ==> AddressOf(s, s.calls[id].holding) % SLOT_BYTES == 0)
    case GiveBack(id) => id in s.calls && s.calls[id].Rejected?
    case Unmap(id, p, n) => id !in s.calls && 0 < p < WORD && 0 < n < WORD && 0 < PageUp(n) && p + PageUp(n) < WORD
    case Free(id) => id in s.calls && s.calls[id].Freeing?
  }

  function Forget(s: System, id: nat): System { s.(calls := s.calls - {id}) }

  // What a call does with memory it must not keep.
  function Surrender(s: System, id: nat, h: Holding): System {
    match h
    case Slots(first, count) => Forget(s, id).(m := WithoutRun(s.m, first, count))
    case Block(base) => Forget(s, id).(heap := s.heap - {base})
  }

  function BackingOf(req: Request, h: Holding): nat {
    if h.Slots? then req.ArenaBacking() else req.HeapBacking()
  }

  function IndexOf(h: Holding): int { if h.Slots? then h.first else -1 }

  function Next(s: System, e: Event): System
    requires Enabled(s, e)
  {
    match e
    case Reserve(id, req) =>
      var index := TakeIndex(s.m, req.ArenaCount());
      if index < 0 then s
      else s.(m := WithRun(s.m, index, req.ArenaCount()),
              calls := s.calls[id := Reserved(req, Slots(index, req.ArenaCount()))])
    case Allocate(id, req, p) =>
      s.(heap := s.heap[p := req.HeapBacking()], calls := s.calls[id := Reserved(req, Block(p))])
    case CountFallback => s.(m := s.m.(fallbackCount := s.m.fallbackCount + 1))
    case AbandonMisaligned(id) => Surrender(s, id, s.calls[id].holding)
    case AbandonFile(id) =>
      // The source calls free() here whatever the memory is.
      Forget(s, id).(heap := s.heap - {AddressOf(s, s.calls[id].holding)})
    case Enter(id) =>
      var c := s.calls[id];
      if FreeRecord(s.m) < 0 then s.(calls := s.calls[id := Rejected(c.holding)])
      else
        Forget(s, id).(m := Registered(
          s.m, c.req, AddressOf(s, c.holding), BackingOf(c.req, c.holding), IndexOf(c.holding)))
    case GiveBack(id) => Surrender(s, id, s.calls[id].holding)
    case Unmap(id, p, n) =>
      var end := p + PageUp(n);
      var m := Unmapped(s.m, p, end);
      var block := ToFree(s.m, p, end);
      if block == 0 then s.(m := m) else s.(m := m, calls := s.calls[id := Freeing(block)])
    case Free(id) => Forget(s, id).(heap := s.heap - {s.calls[id].base})
  }

  // ---------------------------------------------------------------- ownership

  datatype Owner = Rec(i: nat) | Op(id: nat)

  predicate OwnsSlot(s: System, w: Owner, k: nat) {
    match w
    case Rec(i) =>
      && i < |s.m.records| && s.m.records[i].used && 0 <= s.m.records[i].arenaIndex
      && s.m.records[i].arenaIndex <= k < s.m.records[i].arenaIndex + s.m.records[i].arenaCount
    case Op(id) =>
      && id in s.calls && !s.calls[id].Freeing? && s.calls[id].holding.Slots?
      && s.calls[id].holding.first <= k < s.calls[id].holding.first + s.calls[id].holding.count
  }

  predicate OwnsBlock(s: System, w: Owner, b: nat) {
    match w
    case Rec(i) => i < |s.m.records| && s.m.records[i].used && s.m.records[i].arenaIndex < 0 && s.m.records[i].base == b
    case Op(id) =>
      id in s.calls && match s.calls[id]
        case Freeing(base) => base == b
        case Reserved(_, h) => h == Block(b)
        case Rejected(h) => h == Block(b)
  }

  // The bitmap is the disjoint union of the owned runs.
  ghost predicate SlotsOwned(s: System) {
    && (forall w: Owner, k: nat :: OwnsSlot(s, w, k) ==> Bit(s.m.arenaUsed, k))
    && (forall v: Owner, w: Owner, k: nat :: OwnsSlot(s, v, k) && OwnsSlot(s, w, k) ==> v == w)
    && (forall k: nat :: Bit(s.m.arenaUsed, k) ==> exists w :: OwnsSlot(s, w, k))
  }

  // So are the live heap blocks.
  ghost predicate BlocksOwned(s: System) {
    && (forall w: Owner, b: nat :: OwnsBlock(s, w, b) ==> b in s.heap)
    && (forall v: Owner, w: Owner, b: nat :: OwnsBlock(s, v, b) && OwnsBlock(s, w, b) ==> v == w)
    && (forall b: nat :: b in s.heap ==> exists w :: OwnsBlock(s, w, b))
  }

  predicate RecordOk(s: System, r: MmapSlot) {
    && r.base <= r.liveLo < r.liveHi <= Limit(r) && Limit(r) < WORD
    && r.base != 0
    && (if r.arenaIndex >= 0 then
          && r.arenaCount > 0 && r.arenaIndex + r.arenaCount <= s.m.arenaSlots
          && r.base == RunAddress(s.m, r.arenaIndex) && r.backingSize == r.arenaCount * SLOT_BYTES
          && 0 < r.keepCount <= r.arenaCount
        else
          r.arenaIndex == -1 && r.base in s.heap && s.heap[r.base] == r.backingSize)
  }

  predicate HoldingOk(s: System, req: Request, h: Holding) {
    match h
    case Slots(first, count) => req.Reserve() && count == req.ArenaCount() && first + count <= s.m.arenaSlots
    case Block(base) => base in s.heap && s.heap[base] == req.HeapBacking() && base + req.HeapBacking() <= ADDRESS_TOP
                        && base % req.HeapAlignment() == 0
  }

  predicate CallOk(s: System, c: Call) {
    match c
    case Reserved(req, h) => req.Ok() && HoldingOk(s, req, h)
    case Rejected(Slots(first, count)) => 0 < count && first + count <= s.m.arenaSlots
    case Rejected(Block(base)) => base in s.heap && base != 0
    case Freeing(base) => base in s.heap && base != 0
  }

  predicate ArenaOk(m: MmapState) {
    && m.arenaSlots <= ARENA_MAX_SLOTS && m.arenaBase % SLOT_BYTES == 0
    && (m.arenaSlots > 0 ==> m.arenaBase != 0)
    && m.arenaBase + m.arenaSlots * SLOT_BYTES <= ADDRESS_TOP
  }

  predicate HeapOk(s: System) {
    && 0 !in s.heap && (forall b | b in s.heap :: s.heap[b] > 0)
    && (forall a, b | a in s.heap && b in s.heap && a != b :: a + s.heap[a] <= b || b + s.heap[b] <= a)
    && (forall b | b in s.heap :: b + s.heap[b] <= s.m.arenaBase || s.m.arenaBase + s.m.arenaSlots * SLOT_BYTES <= b)
  }

  ghost predicate TableOk(s: System) {
    && |s.m.records| == MMAP_SLOTS && ArenaOk(s.m) && HeapOk(s)
    && (forall i | 0 <= i < |s.m.records| && s.m.records[i].used :: RecordOk(s, s.m.records[i]))
    && (forall id | id in s.calls :: CallOk(s, s.calls[id]))
    && s.m.backingBytes == SumBacking(s.m.records)
    && PopCount(s.m.arenaUsed) <= s.m.peakSlots
  }

  ghost predicate Inv(s: System) {
    TableOk(s) && SlotsOwned(s) && BlocksOwned(s)
  }

  // ---------------------------------------------------------------- ownership moving between owners

  // Everything `from` had in s belongs to `to` in t, and nobody else is affected.
  ghost predicate SlotsMove(s: System, t: System, from: Owner, to: Owner) {
    forall w: Owner, k: nat ::
      OwnsSlot(t, w, k) <==> if w == to then OwnsSlot(s, from, k) else w != from && OwnsSlot(s, w, k)
  }

  ghost predicate BlocksMove(s: System, t: System, from: Owner, to: Owner) {
    forall w: Owner, b: nat ::
      OwnsBlock(t, w, b) <==> if w == to then OwnsBlock(s, from, b) else w != from && OwnsBlock(s, w, b)
  }

  lemma {:induction false} SlotsStayOwned(s: System, t: System, from: Owner, to: Owner)
    requires SlotsOwned(s) && SlotsMove(s, t, from, to)
    requires from == to || forall k: nat :: !OwnsSlot(s, to, k)
    requires t.m.arenaUsed == s.m.arenaUsed
    ensures SlotsOwned(t)
  {
    forall k: nat | Bit(t.m.arenaUsed, k) ensures exists w: Owner :: OwnsSlot(t, w, k) {
      var w: Owner :| OwnsSlot(s, w, k);
      assert OwnsSlot(t, if w == from then to else w, k);
    }
  }

  lemma {:induction false} BlocksStayOwned(s: System, t: System, from: Owner, to: Owner)
    requires BlocksOwned(s) && BlocksMove(s, t, from, to)
    requires from == to || forall b: nat :: !OwnsBlock(s, to, b)
    requires t.heap.Keys == s.heap.Keys
    ensures BlocksOwned(t)
  {
    forall b: nat | b in t.heap ensures exists w: Owner :: OwnsBlock(t, w, b) {
      var w: Owner :| OwnsBlock(s, w, b);
      assert OwnsBlock(t, if w == from then to else w, b);
    }
  }

  // Owner `me` takes a free run; it held nothing before.
  lemma {:induction false} SlotsTaken(s: System, t: System, me: Owner, lo: nat, count: nat)
    requires SlotsOwned(s)
    requires forall k: nat | lo <= k < lo + count :: !Bit(s.m.arenaUsed, k)
    requires forall k: nat :: Bit(t.m.arenaUsed, k) <==> Bit(s.m.arenaUsed, k) || lo <= k < lo + count
    requires forall k: nat :: !OwnsSlot(s, me, k)
    requires forall w: Owner, k: nat ::
      OwnsSlot(t, w, k) <==> if w == me then lo <= k < lo + count else OwnsSlot(s, w, k)
    ensures SlotsOwned(t)
  {
    forall v: Owner, w: Owner, k: nat | OwnsSlot(t, v, k) && OwnsSlot(t, w, k) ensures v == w {
      assert v == me || w == me ==> !Bit(s.m.arenaUsed, k);
    }
    forall k: nat | Bit(t.m.arenaUsed, k) ensures exists w: Owner :: OwnsSlot(t, w, k) {
      if lo <= k < lo + count {
        assert OwnsSlot(t, me, k);
      } else {
        var w: Owner :| OwnsSlot(s, w, k);
        assert OwnsSlot(t, w, k);
      }
    }
  }

  // Owner `me` gives up a run of its own; the bitmap loses exactly that.
  lemma {:induction false} SlotsReleased(s: System, t: System, me: Owner, lo: nat, count: nat)
    requires SlotsOwned(s)
    requires forall k: nat | lo <= k < lo + count :: OwnsSlot(s, me, k)
    requires forall k: nat :: Bit(t.m.arenaUsed, k) <==> Bit(s.m.arenaUsed, k) && !(lo <= k < lo + count)
    requires forall w: Owner, k: nat ::
      OwnsSlot(t, w, k) <==> OwnsSlot(s, w, k) && (w == me ==> !(lo <= k < lo + count))
    ensures SlotsOwned(t)
  {
    forall w: Owner, k: nat | OwnsSlot(t, w, k) ensures Bit(t.m.arenaUsed, k) {
      assert lo <= k < lo + count ==> OwnsSlot(s, me, k);
    }
    forall k: nat | Bit(t.m.arenaUsed, k) ensures exists v: Owner :: OwnsSlot(t, v, k) {
      var v: Owner :| OwnsSlot(s, v, k);
      assert OwnsSlot(t, v, k);
    }
  }

  lemma {:induction false} BlockReleased(s: System, t: System, w: Owner, base: nat)
    requires BlocksOwned(s) && OwnsBlock(s, w, base)
    requires t.heap == s.heap - {base}
    requires forall v: Owner, b: nat :: OwnsBlock(t, v, b) <==> v != w && OwnsBlock(s, v, b)
    requires forall b: nat :: OwnsBlock(s, w, b) ==> b == base
    ensures BlocksOwned(t)
  {
    forall b: nat | b in t.heap ensures exists v: Owner :: OwnsBlock(t, v, b) {
      var v: Owner :| OwnsBlock(s, v, b);
      assert OwnsBlock(t, v, b);
    }
  }

  // Changing one call's entry without changing what it holds moves nothing.
  lemma {:induction false} CallTouched(s: System, t: System, id: nat)
    requires t.m.records == s.m.records
    requires forall j | j != id :: (j in t.calls <==> j in s.calls) && (j in t.calls ==> t.calls[j] == s.calls[j])
    ensures (forall k: nat :: OwnsSlot(t, Op(id), k) <==> OwnsSlot(s, Op(id), k)) ==> SlotsMove(s, t, Op(id), Op(id))
    ensures (forall b: nat :: OwnsBlock(t, Op(id), b) <==> OwnsBlock(s, Op(id), b)) ==> BlocksMove(s, t, Op(id), Op(id))
  {
  }

  // ---------------------------------------------------------------- every step keeps it

  // Table facts survive when only record i, call `id`, the bitmap and the heap's free space change.
  lemma {:induction false} TableFrame(s: System, t: System, i: nat, id: nat)
    requires TableOk(s) && i < MMAP_SLOTS
    requires |t.m.records| == MMAP_SLOTS && t.m.records == s.m.records[i := t.m.records[i]]
    requires t.m.records[i].used ==> RecordOk(t, t.m.records[i])
    requires t.m.backingBytes == SumBacking(t.m.records)
    requires t.m.arenaSlots == s.m.arenaSlots && t.m.arenaBase == s.m.arenaBase
    requires PopCount(t.m.arenaUsed) <= t.m.peakSlots
    requires HeapOk(t) && forall b | b in s.heap :: b in t.heap && t.heap[b] == s.heap[b]
    requires forall j | j in t.calls && j != id :: j in s.calls && t.calls[j] == s.calls[j]
    requires id in t.calls ==> CallOk(t, t.calls[id])
    ensures TableOk(t)
  {
    forall j | 0 <= j < |t.m.records| && t.m.records[j].used ensures RecordOk(t, t.m.records[j]) {
      assert j != i ==> RecordOk(s, s.m.records[j]);
    }
    forall j | j in t.calls ensures CallOk(t, t.calls[j]) {
      assert j != id ==> CallOk(s, s.calls[j]);
    }
  }

  lemma {:induction false} ReserveSlots(s: System, e: Event, first: nat, count: nat)
    requires Inv(s) && e.Reserve? && Enabled(s, e)
    requires count == e.req.ArenaCount() && first == TakeIndex(s.m, count)
    ensures SlotsOwned(Next(s, e))
  {
    var t := Next(s, e);
    RunFreeMeaning(s.m.arenaUsed, first, count);
    forall k: nat ensures Bit(t.m.arenaUsed, k) <==> Bit(s.m.arenaUsed, k) || first <= k < first + count {
      WithRunBits(s.m, first, count, k);
    }
    SlotsTaken(s, t, Op(e.id), first, count);
  }

  lemma {:induction false} ReserveKeeps(s: System, e: Event)
    requires Inv(s) && e.Reserve? && Enabled(s, e)
    ensures Inv(Next(s, e))
  {
    var t := Next(s, e);
    var count := e.req.ArenaCount();
    var first := TakeIndex(s.m, count);
    if first >= 0 {
      ReserveSlots(s, e, first, count);
      CallTouched(s, t, e.id);
      BlocksStayOwned(s, t, Op(e.id), Op(e.id));
      TableFrame(s, t, 0, e.id);
    }
  }

  lemma {:induction false} AllocateBlocks(s: System, e: Event)
    requires Inv(s) && e.Allocate? && Enabled(s, e)
    ensures e.p !in s.heap
    ensures BlocksOwned(Next(s, e))
  {
    var t := Next(s, e);
    assert forall w: Owner, b: nat :: OwnsBlock(t, w, b) <==> if w == Op(e.id) then b == e.p else OwnsBlock(s, w, b);
    forall b: nat | b in t.heap ensures exists w: Owner :: OwnsBlock(t, w, b) {
      if b == e.p {
        assert OwnsBlock(t, Op(e.id), b);
      } else {
        var w: Owner :| OwnsBlock(s, w, b);
        assert OwnsBlock(t, w, b);
      }
    }
  }

  lemma {:induction false} AllocateHeap(s: System, e: Event)
    requires HeapOk(s) && e.Allocate? && Enabled(s, e) && e.p !in s.heap
    ensures HeapOk(Next(s, e))
  {
    var t := Next(s, e);
    var size := e.req.HeapBacking();
    assert t.heap == s.heap[e.p := size];
    forall a, b | a in t.heap && b in t.heap && a != b ensures a + t.heap[a] <= b || b + t.heap[b] <= a {
      if a == e.p {
        assert e.p + size <= b || b + s.heap[b] <= e.p;
      } else if b == e.p {
        assert e.p + size <= a || a + s.heap[a] <= e.p;
      }
    }
  }

  lemma {:induction false} AllocateKeeps(s: System, e: Event)
    requires Inv(s) && e.Allocate? && Enabled(s, e)
    ensures Inv(Next(s, e))
  {
    AllocateBlocks(s, e);
    AllocateHeap(s, e);
    CallTouched(s, Next(s, e), e.id);
    TableFrame(s, Next(s, e), 0, e.id);
    SlotsStayOwned(s, Next(s, e), Op(e.id), Op(e.id));
  }

  // Once one owner's block leaves the heap, what the others point at is still there.
  lemma {:induction false} OthersKeepBlocks(s: System, t: System, gone: nat, base: nat)
    requires Inv(s) && OwnsBlock(s, Op(gone), base)
    requires t == s.(calls := s.calls - {gone}, heap := s.heap - {base})
    ensures TableOk(t)
  {
    forall i | 0 <= i < |t.m.records| && t.m.records[i].used ensures RecordOk(t, t.m.records[i]) {
      if t.m.records[i].arenaIndex < 0 { assert OwnsBlock(s, Rec(i), s.m.records[i].base); }
    }
    forall id | id in t.calls ensures CallOk(t, t.calls[id]) {
      match t.calls[id] {
        case Reserved(_, Block(b)) => assert OwnsBlock(s, Op(id), b);
        case Rejected(Block(b)) => assert OwnsBlock(s, Op(id), b);
        case Freeing(b) => assert OwnsBlock(s, Op(id), b);
        case _ =>
      }
    }
  }

  lemma {:induction false} BlockGivenBack(s: System, id: nat, base: nat)
    requires Inv(s) && OwnsBlock(s, Op(id), base)
    ensures Inv(s.(calls := s.calls - {id}, heap := s.heap - {base}))
  {
    var t := s.(calls := s.calls - {id}, heap := s.heap - {base});
    OthersKeepBlocks(s, t, id, base);
    BlockReleased(s, t, Op(id), base);
    SlotsStayOwned(s, t, Op(id), Op(id));
  }

  lemma {:induction false} SlotsGivenBack(s: System, id: nat, first: nat, count: nat)
    requires Inv(s) && id in s.calls && !s.calls[id].Freeing? && s.calls[id].holding == Slots(first, count)
    ensures SlotsOwned(Surrender(s, id, Slots(first, count)))
  {
    var t := Surrender(s, id, Slots(first, count));
    assert CallOk(s, s.calls[id]);
    forall k: nat ensures Bit(t.m.arenaUsed, k) <==> Bit(s.m.arenaUsed, k) && !(first <= k < first + count) {
      WithoutRunBits(s.m, first, count, k);
    }
    SlotsReleased(s, t, Op(id), first, count);
  }

  lemma {:induction false} SlotsGivenBackTable(s: System, id: nat, first: nat, count: nat)
    requires TableOk(s) && id in s.calls
    ensures TableOk(Surrender(s, id, Slots(first, count)))
  {
    PopCountAndNot(s.m.arenaUsed, ArenaMask(first, count));
    TableFrame(s, Surrender(s, id, Slots(first, count)), 0, id);
  }

  lemma {:induction false} SurrenderKeeps(s: System, id: nat)
    requires Inv(s) && id in s.calls && !s.calls[id].Freeing?
    ensures Inv(Surrender(s, id, s.calls[id].holding))
  {
    match s.calls[id].holding {
      case Slots(first, count) =>
        SlotsGivenBack(s, id, first, count);
        SlotsGivenBackTable(s, id, first, count);
        BlocksStayOwned(s, Surrender(s, id, Slots(first, count)), Op(id), Op(id));
      case Block(base) =>
        BlockGivenBack(s, id, base);
    }
  }

  lemma {:induction false} EnterSlots(s: System, e: Event, i: nat)
    requires Inv(s) && e.Enter? && Enabled(s, e) && i == FreeRecord(s.m)
    ensures SlotsOwned(Next(s, e))
  {
    SlotsStayOwned(s, Next(s, e), Op(e.id), Rec(i));
  }

  lemma {:induction false} EnterBlocks(s: System, e: Event, i: nat)
    requires Inv(s) && e.Enter? && Enabled(s, e) && i == FreeRecord(s.m)
    ensures BlocksOwned(Next(s, e))
  {
    BlocksStayOwned(s, Next(s, e), Op(e.id), Rec(i));
  }

  lemma {:induction false} EnterTable(s: System, e: Event, i: nat)
    requires Inv(s) && e.Enter? && Enabled(s, e) && i == FreeRecord(s.m)
    ensures TableOk(Next(s, e))
  {
    var t := Next(s, e);
    SumBackingUpdate(s.m.records, i, t.m.records[i]);
    assert CallOk(s, s.calls[e.id]);
    TableFrame(s, t, i, e.id);
  }

  lemma {:induction false} EnterKeeps(s: System, e: Event)
    requires Inv(s) && e.Enter? && Enabled(s, e)
    ensures Inv(Next(s, e))
  {
    var t := Next(s, e);
    var i := FreeRecord(s.m);
    if i < 0 {
      CallTouched(s, t, e.id);
      SlotsStayOwned(s, t, Op(e.id), Op(e.id));
      BlocksStayOwned(s, t, Op(e.id), Op(e.id));
      TableFrame(s, t, 0, e.id);
    } else {
      EnterSlots(s, e, i);
      EnterBlocks(s, e, i);
      EnterTable(s, e, i);
    }
  }

  // ---------------------------------------------------------------- munmap

  function UnmapEnd(e: Event): nat
    requires e.Unmap?
  {
    e.p + PageUp(e.n)
  }

  // The record the call works on and the end of the range it takes from it.
  ghost predicate UnmapsRecord(s: System, e: Event, i: nat, end: nat) {
    && e.Unmap? && Enabled(s, e)
    && i == HitIndex(s.m, e.p) && end == Min(UnmapEnd(e), Limit(s.m.records[i]))
  }

  lemma {:induction false} UnmapAllSlots(s: System, e: Event, i: nat, end: nat)
    requires Inv(s) && UnmapsRecord(s, e, i, end)
    requires CoversAll(s.m.records[i], e.p, end) && s.m.records[i].arenaIndex >= 0
    ensures SlotsOwned(Next(s, e))
  {
    var t := Next(s, e);
    var r := s.m.records[i];
    assert RecordOk(s, r);
    forall k: nat
      ensures Bit(t.m.arenaUsed, k) <==>
        Bit(s.m.arenaUsed, k) && !(r.arenaIndex <= k < r.arenaIndex + r.arenaCount)
    {
      WithoutRunBits(s.m, r.arenaIndex, r.arenaCount, k);
    }
    SlotsReleased(s, t, Rec(i), r.arenaIndex, r.arenaCount);
  }

  lemma {:induction false} TrimSlots(s: System, e: Event, i: nat, end: nat)
    requires Inv(s) && UnmapsRecord(s, e, i, end)
    requires s.m.records[i].liveLo < e.p && s.m.records[i].liveHi <= end && TrimsArena(s.m.records[i], e.p, end)
    ensures SlotsOwned(Next(s, e))
  {
    var t := Next(s, e);
    var r := s.m.records[i];
    assert RecordOk(s, r);
    var lo, count := r.arenaIndex + r.keepCount, r.arenaCount - r.keepCount;
    forall k: nat ensures Bit(t.m.arenaUsed, k) <==> Bit(s.m.arenaUsed, k) && !(lo <= k < lo + count) {
      WithoutRunBits(s.m, lo, count, k);
    }
    SlotsReleased(s, t, Rec(i), lo, count);
  }

  // Writing a record back with the same holding moves nothing.
  lemma {:induction false} RecordTouched(s: System, t: System, i: nat)
    requires i < |s.m.records| == |t.m.records| && t.calls == s.calls && t.m.records == s.m.records[i := t.m.records[i]]
    requires
      var r, r' := s.m.records[i], t.m.records[i];
      r'.used == r.used && r'.arenaIndex == r.arenaIndex && r'.base == r.base
    ensures BlocksMove(s, t, Rec(i), Rec(i))
    ensures t.m.records[i].arenaCount == s.m.records[i].arenaCount ==> SlotsMove(s, t, Rec(i), Rec(i))
  {
  }

  // A record taken out of the table leaves its heap block with the call, to be freed.
  lemma {:induction false} RecordToFree(s: System, t: System, i: nat, id: nat)
    requires i < |s.m.records| && s.m.records[i].used && s.m.records[i].arenaIndex < 0 && id !in s.calls
    requires t.m.records == s.m.records[i := UNUSED] && t.calls == s.calls[id := Freeing(s.m.records[i].base)]
    ensures BlocksMove(s, t, Rec(i), Op(id))
    ensures SlotsMove(s, t, Rec(i), Rec(i))
  {
  }

  // A record taken out of the table with its arena slots owns no heap block before or after.
  lemma {:induction false} RecordCleared(s: System, t: System, i: nat)
    requires i < |s.m.records| && s.m.records[i].used && s.m.records[i].arenaIndex >= 0
    requires t.m.records == s.m.records[i := UNUSED] && t.calls == s.calls
    ensures BlocksMove(s, t, Rec(i), Rec(i))
  {
  }

  lemma {:induction false} UnmapOwnership(s: System, e: Event, i: nat, end: nat)
    requires Inv(s) && UnmapsRecord(s, e, i, end)
    ensures SlotsOwned(Next(s, e)) && BlocksOwned(Next(s, e))
  {
    var t := Next(s, e);
    var r := s.m.records[i];
    assert RecordOk(s, r);
    UnmapRecordShape(s.m, i, e.p, end);
    if CoversAll(r, e.p, end) {
      if r.arenaIndex >= 0 {
        UnmapAllSlots(s, e, i, end);
        RecordCleared(s, t, i);
        BlocksStayOwned(s, t, Rec(i), Rec(i));
      } else {
        RecordToFree(s, t, i, e.id);
        BlocksStayOwned(s, t, Rec(i), Op(e.id));
        SlotsStayOwned(s, t, Rec(i), Rec(i));
      }
    } else {
      RecordTouched(s, t, i);
      BlocksStayOwned(s, t, Rec(i), Rec(i));
      if r.liveLo < e.p && r.liveHi <= end && TrimsArena(r, e.p, end) {
        TrimSlots(s, e, i, end);
      } else {
        SlotsStayOwned(s, t, Rec(i), Rec(i));
      }
    }
  }

  /** The accounting subtractions of munmap never saturate: the total stays the sum of the records. */
  lemma {:induction false} UnmapAccounting(s: System, e: Event, i: nat, end: nat)
    requires TableOk(s) && UnmapsRecord(s, e, i, end)
    ensures Next(s, e).m.backingBytes == SumBacking(Next(s, e).m.records)
    ensures s.m.backingBytes >= s.m.records[i].backingSize
  {
    var r := s.m.records[i];
    assert RecordOk(s, r);
    SumBackingAtLeast(s.m.records, i);
    SumBackingUpdate(s.m.records, i, Next(s, e).m.records[i]);
  }

  lemma {:induction false} UnmapRecordOk(s: System, i: nat, start: nat, end: nat)
    requires i < |s.m.records| && Hit(s.m.records[i], start) && RecordOk(s, s.m.records[i])
    requires end == Min(end, Limit(s.m.records[i])) && start < end
    ensures
      var r := UnmapRecord(s.m, i, start, end).records[i];
      r.used ==> RecordOk(s, r)
  {
  }

  lemma {:induction false} UnmapNext(s: System, e: Event, i: nat, end: nat)
    requires TableOk(s) && UnmapsRecord(s, e, i, end)
    ensures
      var t := Next(s, e);
      && t.m == UnmapRecord(s.m, i, e.p, end) && t.heap == s.heap
      && (t.calls == s.calls || (t.calls.Keys == s.calls.Keys + {e.id} && CallOk(s, t.calls[e.id])))
      && forall j | j in s.calls :: j in t.calls && t.calls[j] == s.calls[j]
  {
    assert RecordOk(s, s.m.records[i]);
  }

  lemma {:induction false} UnmapTable(s: System, e: Event, i: nat, end: nat)
    requires TableOk(s) && UnmapsRecord(s, e, i, end)
    ensures TableOk(Next(s, e))
  {
    UnmapNext(s, e, i, end);
    UnmapRecordShape(s.m, i, e.p, end);
    UnmapRecordUsed(s.m, i, e.p, end);
    UnmapRecordOk(s, i, e.p, end);
    UnmapAccounting(s, e, i, end);
    TableFrame(s, Next(s, e), i, e.id);
  }

  lemma {:induction false} UnmapKeeps(s: System, e: Event)
    requires Inv(s) && e.Unmap? && Enabled(s, e)
    ensures Inv(Next(s, e))
  {
    var i := HitIndex(s.m, e.p);
    if i >= 0 {
      var end := Min(UnmapEnd(e), Limit(s.m.records[i]));
      UnmapOwnership(s, e, i, end);
      UnmapTable(s, e, i, end);
    }
  }
}
