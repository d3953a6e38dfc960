/**
 The mapping table as the program keeps it: a fixed table of records and a bitmap, updated
 in place.  Every method that is a section under the mapping lock is proved equal to its
 function in MmapModel.
 */
module MmapTable {
  import opened Common
  import opened Bits
  import opened MmapModel

  datatype Errno = EINVAL | ENOMEM | FileError

  datatype MapResult = Mapped(address: nat) | MapFailed(errno: Errno)

  // The test bionic_set_mmap_arena applies to the region it is given.
  predicate ArenaAccepts(base: nat, size: nat) {
    && base != 0 && base % SLOT_BYTES == 0 && size % SLOT_BYTES == 0
    && 0 < size / SLOT_BYTES % 0x1_0000_0000 <= ARENA_MAX_SLOTS
  }

  predicate MunmapAccepts(p: nat, n: nat) {
    p > 0 && n > 0 && PageUp(n) > 0 && p + PageUp(n) < WORD
  }

  class MmapTable {
    const records: array<MmapSlot>
    var backingBytes: nat
    var arenaBase: nat
    var arenaSlots: nat
    var arenaUsed: nat
    var peakSlots: nat
    var fallbackCount: nat

    ghost function State(): MmapState
      reads this, records
    {
      MmapState(records[..], backingBytes, arenaBase, arenaSlots, arenaUsed, peakSlots, fallbackCount)
    }

    constructor ()
      ensures fresh(records) && records.Length == MMAP_SLOTS
      ensures State() == MmapState(seq(MMAP_SLOTS, i => BLANK), 0, 0, 0, 0, 0, 0)
    {
      records := new MmapSlot[MMAP_SLOTS](i => BLANK);
      backingBytes, arenaBase, arenaSlots, arenaUsed, peakSlots, fallbackCount := 0, 0, 0, 0, 0, 0;
    }

    // bionic_set_mmap_arena: `slots` is the C cast of the quotient to a 32-bit unsigned.
    method SetArena(base: nat, size: nat)
      modifies this
      ensures records[..] == old(records[..]) && backingBytes == old(backingBytes)
      ensures ArenaAccepts(base, size) ==> arenaBase == base && arenaSlots == size / SLOT_BYTES % 0x1_0000_0000
      ensures !ArenaAccepts(base, size) ==> arenaBase == 0 && arenaSlots == 0
      ensures arenaUsed == 0 && peakSlots == 0 && fallbackCount == 0
    {
      var slots := size / SLOT_BYTES % 0x1_0000_0000;
      var ok := base != 0 && 0 < slots <= ARENA_MAX_SLOTS && base % SLOT_BYTES == 0 && size % SLOT_BYTES == 0;
      arenaBase := if ok then base else 0;
      arenaSlots := if ok then slots else 0;
      arenaUsed := 0;
      peakSlots := 0;
      fallbackCount := 0;
    }

    method MarkRun(i: nat, count: nat) returns (index: int, address: nat)
      modifies this
      ensures index == i && address == RunAddress(old(State()), i) && State() == WithRun(old(State()), i, count)
    {
      arenaUsed := Or(arenaUsed, ArenaMask(i, count));
      var used := PopCount(arenaUsed);
      if used > peakSlots { peakSlots := used; }
      address := arenaBase + i * SLOT_BYTES;
      index := i;
    }

    method TakeRun(count: nat, fromHigh: bool) returns (index: int, address: nat)
      requires arenaSlots <= ARENA_MAX_SLOTS
      modifies this
      ensures !ArenaUsable(old(State()), count) ==> index == -1
      ensures ArenaUsable(old(State()), count) ==> IsTakenRun(old(arenaUsed), arenaSlots, count, fromHigh, index)
      ensures !fromHigh ==> index == TakeIndex(old(State()), count)
      ensures index < 0 ==> address == 0 && State() == old(State())
      ensures index >= 0 ==>
        address == RunAddress(old(State()), index) && State() == WithRun(old(State()), index, count)
    {
      address := 0;
      index := -1;
      if count == 0 || count > ARENA_MAX_SLOTS || arenaBase == 0 || arenaSlots < count { return; }
      if fromHigh {
        var n := arenaSlots - count + 1;
        while n > 0
          invariant n <= arenaSlots - count + 1
          invariant State() == old(State())
          invariant forall j: nat | n <= j && j + count <= arenaSlots :: !RunFree(arenaUsed, j, count)
        {
          var i := n - 1;
          if RunFree(arenaUsed, i, count) {
            index, address := MarkRun(i, count);
            return;
          }
          n := n - 1;
        }
      } else {
        var i := 0;
        while i + count <= arenaSlots
          invariant State() == old(State())
          invariant forall j: nat | j < i :: !RunFree(arenaUsed, j, count)
        {
          if RunFree(arenaUsed, i, count) {
            index, address := MarkRun(i, count);
            return;
          }
          i := i + 1;
        }
      }
    }

    method ReleaseRun(first: nat, count: nat)
      modifies this
      ensures State() == WithoutRun(old(State()), first, count)
    {
      if count == 0 || first >= ARENA_MAX_SLOTS || first + count > ARENA_MAX_SLOTS { return; }
      arenaUsed := AndNot(arenaUsed, ArenaMask(first, count));
    }

    // The section of mmap that enters a block in the table.
    method Register(req: Request, p: nat, backing: nat, arenaIndex: int) returns (ok: bool)
      modifies this, records
      ensures ok == (FreeRecord(old(State())) >= 0)
      ensures State() == Registered(old(State()), req, p, backing, arenaIndex)
    {
      ghost var before := State();
      var i := 0;
      while i < records.Length && records[i].used
        invariant i <= records.Length
        invariant State() == before
        invariant FreeRecord(before) == FreeRecordFrom(before.records, i)
      {
        i := i + 1;
      }
      ok := i < records.Length;
      if ok {
        records[i] := NewRecord(req, p, backing, arenaIndex);
        backingBytes := backingBytes + backing;
      }
    }

    // The body of the loop of munmap once the record is found.
    method UnmapHit(i: nat, start: nat, end: nat) returns (toFree: nat)
      requires i < records.Length && Hit(records[i], start)
      modifies this, records
      ensures
        var r := old(records[i]);
        var stop := Min(end, Limit(r));
        && State() == UnmapRecord(old(State()), i, start, stop)
        && toFree == if CoversAll(r, start, stop) && r.arenaIndex < 0 then r.base else 0
    {
      var s := records[i];
      toFree := 0;
      var limit := s.base + s.logicalSize;
      var stop := if end > limit then limit else end;
      if start <= s.liveLo && stop >= s.liveHi {
        var freed := s.backingSize;
        if backingBytes >= freed { backingBytes := backingBytes - freed; } else { backingBytes := 0; }
        if s.arenaIndex >= 0 {
          ReleaseRun(s.arenaIndex, if s.arenaCount > 0 then s.arenaCount else 1);
        } else {
          toFree := s.base;
        }
        records[i] := UNUSED;
      } else if start <= s.liveLo && stop > s.liveLo {
        records[i] := s.(liveLo := if stop < s.liveHi then stop else s.liveHi);
      } else if stop >= s.liveHi && start < s.liveHi {
        records[i] := s.(liveHi := if start > s.liveLo then start else s.liveLo);
        if s.arenaIndex >= 0 && s.keepCount > 0 && s.arenaCount > s.keepCount &&
           start == s.base + s.keepCount * SLOT_BYTES && stop >= limit {
          ReleaseRun(s.arenaIndex + s.keepCount, s.arenaCount - s.keepCount);
          var kept := s.keepCount * SLOT_BYTES;
          records[i] := records[i].(arenaCount := s.keepCount, backingSize := kept);
          var given := Drop(s.backingSize, kept);
          if backingBytes >= given { backingBytes := backingBytes - given; } else { backingBytes := 0; }
        }
      }
    }

    // The section of munmap; `toFree` is the heap block to free after the unlock, 0 for none.
    method UnmapSection(start: nat, end: nat) returns (toFree: nat)
      modifies this, records
      ensures State() == Unmapped(old(State()), start, end)
      ensures toFree == ToFree(old(State()), start, end)
    {
      ghost var before := State();
      toFree := 0;
      var i := 0;
      while i < records.Length
        invariant i <= records.Length
        invariant State() == before
        invariant HitIndex(before, start) == HitFrom(before.records, start, i)
      {
        var s := records[i];
        assert s == before.records[i];
        if !s.used || start < s.liveLo || start >= s.liveHi {
          i := i + 1;
          continue;
        }
        toFree := UnmapHit(i, start, end);
        return;
      }
    }

    // munmap up to the free() that follows the section.
    method Munmap(p: nat, n: nat) returns (ok: bool, toFree: nat)
      requires p < WORD && n < WORD
      modifies this, records
      ensures ok == MunmapAccepts(p, n)
      ensures !ok ==> State() == old(State()) && toFree == 0
      ensures ok ==>
        State() == Unmapped(old(State()), p, p + PageUp(n)) && toFree == ToFree(old(State()), p, p + PageUp(n))
      ensures ok ==> LosesRange(old(records[..]), records[..], p, p + PageUp(n))
    {
      toFree := 0;
      if p == 0 || n == 0 { return false, 0; }
      var len := PageUp(n);
      if len == 0 { return false, 0; }
      var end := (p + len) % WORD;
      if end < p { return false, 0; }
      ok := true;
      UnmapLosesRange(State(), p, end);
      toFree := UnmapSection(p, end);
    }

    // The part of mmap that finds memory: from the arena for a reserve, else, or if the arena is full, from the heap.
    method Obtain(req: Request, heapBlock: nat) returns (p: nat, index: int, backing: nat)
      requires arenaSlots <= ARENA_MAX_SLOTS
      modifies this
      ensures
        var before := old(State());
        if req.Reserve() && TakeIndex(before, req.ArenaCount()) >= 0 then
          && index == TakeIndex(before, req.ArenaCount()) && p == RunAddress(before, index) && p != 0
          && backing == req.ArenaBacking() && State() == WithRun(before, index, req.ArenaCount())
        else
          && index == -1 && p == heapBlock && backing == req.HeapBacking()
          && State() == if req.Reserve() && heapBlock != 0 then before.(fallbackCount := before.fallbackCount + 1)
                        else before
    {
      var arenaCount := req.ArenaCount();
      backing := req.logical;
      p := 0;
      index := -1;
      if req.Reserve() {
        index, p := TakeRun(arenaCount, false);
        if index >= 0 { backing := arenaCount * SLOT_BYTES; }
      }
      if p == 0 {
        backing := req.HeapBacking();
        p := heapBlock;
        if p != 0 && req.Reserve() { fallbackCount := fallbackCount + 1; }
      }
    }

    /**
     One whole mmap with nothing interleaved.  The foreign calls are parameters: `heapBlock` is
     what memalign returns (0 for failure) and `readOk` is whether filling from the file succeeds.
     `released` is the heap block the call frees again, 0 for none.
     */
    method Mmap(n: nat, fd: int, anonymous: bool, offset: int, heapBlock: nat, readOk: bool)
      returns (result: MapResult, ghost released: nat)
      requires n < WORD && arenaSlots <= ARENA_MAX_SLOTS
      modifies this, records
      ensures
        var before := old(State());
        var req := Request(PageUp(n), fd >= 0 && !anonymous);
        if n == 0 then result == MapFailed(EINVAL) && State() == before && released == 0
        else if PageUp(n) == 0 then result == MapFailed(ENOMEM) && State() == before && released == 0
        else if req.fileBacked && offset < 0 then result == MapFailed(EINVAL) && State() == before && released == 0
        else if req.Reserve() && TakeIndex(before, req.ArenaCount()) >= 0 then
          var index := TakeIndex(before, req.ArenaCount());
          var taken := WithRun(before, index, req.ArenaCount());
          var p := RunAddress(before, index);
          && released == 0
          && if p % SLOT_BYTES != 0 || FreeRecord(before) < 0 then
               result == MapFailed(ENOMEM) && State() == WithoutRun(taken, index, req.ArenaCount())
             else
               result == Mapped(p) && State() == Registered(taken, req, p, req.ArenaBacking(), index)
        else if heapBlock == 0 then result == MapFailed(ENOMEM) && State() == before && released == 0
        else
          var counted := if req.Reserve() then before.(fallbackCount := before.fallbackCount + 1) else before;
          if req.Reserve() && heapBlock % SLOT_BYTES != 0 then
            result == MapFailed(ENOMEM) && State() == counted && released == heapBlock
          else if req.fileBacked && !readOk then
            result == MapFailed(FileError) && State() == counted && released == heapBlock
          else if FreeRecord(before) < 0 then
            result == MapFailed(ENOMEM) && State() == counted && released == heapBlock
          else
            && result == Mapped(heapBlock) && released == 0
            && State() == Registered(counted, req, heapBlock, req.HeapBacking(), -1)
    {
      released := 0;
      if n == 0 { return MapFailed(EINVAL), 0; }
      var logical := PageUp(n);
      if logical == 0 { return MapFailed(ENOMEM), 0; }
      var req := Request(logical, fd >= 0 && !anonymous);
      if req.fileBacked && offset < 0 { return MapFailed(EINVAL), 0; }
      var p, index, backing := Obtain(req, heapBlock);
      if p == 0 { return MapFailed(ENOMEM), 0; }
      if req.Reserve() && p % SLOT_BYTES != 0 {
        if index >= 0 { ReleaseRun(index, req.ArenaCount()); } else { released := p; }
        return MapFailed(ENOMEM), released;
      }
      if req.fileBacked && !readOk { return MapFailed(FileError), p; }
      var ok := Register(req, p, backing, index);
      if !ok {
        if index >= 0 { ReleaseRun(index, req.ArenaCount()); } else { released := p; }
        return MapFailed(ENOMEM), released;
      }
      result := Mapped(p);
    }
  }

}
