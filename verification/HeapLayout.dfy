/**
 How the process heap is carved up at start-up (source/runtime.c): newlib heap, then the image
 arena, then the mmap arena, whose size shrinks slot by slot until everything fits.
 */
module HeapLayout {
  import MmapModel
  import MmapProtocol
  import MmapSafety
  import MmapTable

  const SLOT: nat := 64 * 1024 * 1024
  const SO_ARENA_BYTES: nat := 96 * 1024 * 1024
  const MMAP_ARENA_BYTES: nat := 2112 * 1024 * 1024
  const MIN_NEWLIB_BYTES: nat := 768 * 1024 * 1024
  const MAX_SLOTS: nat := MMAP_ARENA_BYTES / SLOT

  datatype Layout =
    | OutOfMemory
    | Layout(newlibLo: nat, newlibHi: nat, soLo: nat, soSize: nat, mmapLo: nat, mmapSize: nat)

  // The heap [lo, hi) has room for the three regions with an arena of n slots below its last slot boundary.
  predicate Fits(lo: nat, hi: nat, n: nat) {
    lo + MIN_NEWLIB_BYTES + SO_ARENA_BYTES + n * SLOT <= hi / SLOT * SLOT
  }

  predicate NoMoreFit(lo: nat, hi: nat, slots: nat) {
    forall n: nat | slots < n <= MAX_SLOTS :: !Fits(lo, hi, n)
  }

  // The regions follow each other inside the heap [lo, hi), each with its required size.
  predicate Partitions(lo: nat, hi: nat, l: Layout)
    requires l.Layout?
  {
    && l.newlibLo == lo && lo + MIN_NEWLIB_BYTES <= l.newlibHi == l.soLo
    && l.soSize == SO_ARENA_BYTES && l.soLo + l.soSize == l.mmapLo
    && l.mmapLo + l.mmapSize == hi / SLOT * SLOT <= hi
  }

  method CarveUp(lo: nat, size: nat) returns (layout: Layout)
    requires lo + size <= MmapModel.ADDRESS_TOP
    ensures layout.OutOfMemory? <==> !Fits(lo, lo + size, 1)
    ensures layout.Layout? ==> Partitions(lo, lo + size, layout)
    // the arena has the most slots that fit, up to the 33 it was designed for
    ensures layout.Layout? ==> layout.mmapSize % SLOT == 0 && 1 <= layout.mmapSize / SLOT <= MAX_SLOTS
    ensures layout.Layout? ==> NoMoreFit(lo, lo + size, layout.mmapSize / SLOT)
    // and the arena allocator accepts it
    ensures layout.Layout? ==> MmapTable.ArenaAccepts(layout.mmapLo, layout.mmapSize)
  {
    var hi := lo + size;
    var mmapHi := hi / SLOT * SLOT;
    var mmapBytes: nat := MMAP_ARENA_BYTES;
    while mmapBytes >= SLOT
      invariant mmapBytes % SLOT == 0 && mmapBytes <= MMAP_ARENA_BYTES
      invariant NoMoreFit(lo, hi, mmapBytes / SLOT)
    {
      if mmapHi >= lo + mmapBytes + SO_ARENA_BYTES {
        var mmapLo := mmapHi - mmapBytes;
        var soLo := mmapLo - SO_ARENA_BYTES;
        if soLo >= lo + MIN_NEWLIB_BYTES { break; }
      }
      mmapBytes := mmapBytes - SLOT;
    }
    if mmapBytes < SLOT { return OutOfMemory; }
    var mmapLo := mmapHi - mmapBytes;
    var soLo := mmapLo - SO_ARENA_BYTES;
    layout := Layout(lo, soLo, soLo, SO_ARENA_BYTES, mmapLo, mmapBytes);
  }

  /** What the carve-up hands over is a state the arena protocol can start from. */
  method StartArena(lo: nat, size: nat) returns (layout: Layout, table: MmapTable.MmapTable)
    requires lo + size <= MmapModel.ADDRESS_TOP
    ensures fresh(table) && fresh(table.records)
    ensures layout.Layout? ==>
      && table.arenaBase == layout.mmapLo && table.arenaSlots * SLOT == layout.mmapSize
      && MmapSafety.Initial(MmapProtocol.System(table.State(), map[], map[]))
  {
    layout := CarveUp(lo, size);
    table := new MmapTable.MmapTable();
    if layout.Layout? {
      table.SetArena(layout.mmapLo, layout.mmapSize);
    }
  }
}
