/**
 The mapping table and the slot arena behind mmap and munmap (source/bionic.c): the
 static tables as one value, and each section that runs under the mapping lock as a
 function from that value to the next.
 */
module MmapModel {
  import opened Common
  import opened Bits

  const WORD: nat := 0x1_0000_0000_0000_0000      // 2^64, the range of uintptr_t and size_t
  const ADDRESS_TOP: nat := 0x1_0000_0000_0000     // host blocks lie in the 48-bit user half
  const PAGE: nat := 0x1000
  const SLOT_BYTES: nat := 0x0400_0000
  const DYNAMIC_RESERVE: nat := 0x07ff_f000
  const DYNAMIC_DIRECT: nat := SLOT_BYTES
  const ALIGNED256_RESERVE: nat := 0x13ff_f000
  const ALIGNED256_LIVE_SLOTS: nat := 4
  const MMAP_SLOTS: nat := 256
  const ARENA_MAX_SLOTS: nat := 33

  datatype MmapSlot = MmapSlot(
    base: nat, logicalSize: nat, backingSize: nat, liveLo: nat, liveHi: nat,
    used: bool, alignedReserve: bool, arenaIndex: int, arenaCount: nat, keepCount: nat)

  // A record as static storage starts it, and as munmap leaves it.
  const BLANK := MmapSlot(0, 0, 0, 0, 0, false, false, 0, 0, 0)
  const UNUSED := BLANK.(arenaIndex := -1)

  datatype MmapState = MmapState(
    records: seq<MmapSlot>, backingBytes: nat, arenaBase: nat, arenaSlots: nat,
    arenaUsed: nat, peakSlots: nat, fallbackCount: nat)

  // ---------------------------------------------------------------- requests

  function PageUp(n: nat): (r: nat)
    ensures n <= WORD - PAGE ==> r % PAGE == 0 && n <= r < n + PAGE
    ensures r < WORD
  {
    if n > WORD - 1 - 0xfff then 0 else (n + 0xfff) / PAGE * PAGE
  }

  /** What one mmap call asks for, once the size and the descriptor have been looked at. */
  datatype Request = Request(logical: nat, fileBacked: bool)
  {
    predicate Window() { !fileBacked && logical == DYNAMIC_RESERVE }
    predicate Direct() { !fileBacked && logical == DYNAMIC_DIRECT }
    predicate Aligned256() { !fileBacked && logical == ALIGNED256_RESERVE }
    predicate Reserve() { Window() || Direct() || Aligned256() }
    function KeepCount(): nat {
      if Window() || Direct() then 1 else if Aligned256() then ALIGNED256_LIVE_SLOTS else 0
    }
    function ArenaCount(): nat {
      if Window() || Direct() then 1 else if KeepCount() > 0 then KeepCount() + 1 else 0
    }
    function HeapAlignment(): nat { if Reserve() then SLOT_BYTES else PAGE }
    function HeapBacking(): nat { if Window() || Direct() then SLOT_BYTES else logical }
    function ArenaBacking(): nat { ArenaCount() * SLOT_BYTES }
    predicate Ok() { 0 < logical <= WORD - PAGE && logical % PAGE == 0 }
  }

  // ---------------------------------------------------------------- the arena

  function ArenaMask(first: nat, count: nat): nat {
    if count == 0 || count > 64 || first >= 64 || first + count > 64 then 0 else Run(first, count)
  }

  predicate RunFree(used: nat, first: nat, count: nat) {
    ArenaMask(first, count) != 0 && And(used, ArenaMask(first, count)) == 0
  }

  lemma {:induction false} RunFreeMeaning(used: nat, first: nat, count: nat)
    requires 0 < count && first + count <= 64
    ensures RunFree(used, first, count) <==> forall k: nat | first <= k < first + count :: !Bit(used, k)
  {
    var mask := ArenaMask(first, count);
    assert mask > 0 by { BitRun(first, count, first); BitOfZero(first); }
    if And(used, mask) == 0 {
      forall k: nat | first <= k < first + count ensures !Bit(used, k) {
        BitAnd(used, mask, k);
        BitRun(first, count, k);
        BitOfZero(k);
      }
    } else {
      var k := AnyBit(And(used, mask));
      BitAnd(used, mask, k);
      BitRun(first, count, k);
      assert Bit(used, k) && first <= k < first + count;
    }
  }

  // `found` is the lowest (or highest) start of a free run of `count` slots, or -1.
  predicate IsTakenRun(used: nat, slots: nat, count: nat, fromHigh: bool, found: int) {
    if found < 0 then
      found == -1 && forall i: nat | i + count <= slots :: !RunFree(used, i, count)
    else
      && found + count <= slots && RunFree(used, found, count)
      && forall i: nat | i + count <= slots && RunFree(used, i, count) ::
           if fromHigh then i <= found else found <= i
  }

  function LowestFrom(used: nat, slots: nat, count: nat, i: nat): (found: int)
    ensures found < 0 ==> found == -1 && forall j: nat | i <= j && j + count <= slots :: !RunFree(used, j, count)
    ensures found >= 0 ==> i <= found && found + count <= slots && RunFree(used, found, count)
    ensures found >= 0 ==> forall j: nat | i <= j < found :: !RunFree(used, j, count)
    decreases slots - i
  {
    if i + count > slots then -1
    else if RunFree(used, i, count) then i
    else LowestFrom(used, slots, count, i + 1)
  }

  predicate ArenaUsable(m: MmapState, count: nat) {
    0 < count <= ARENA_MAX_SLOTS && m.arenaBase != 0 && count <= m.arenaSlots
  }

  // The index unity_arena_take_run(count, 0) returns.
  function TakeIndex(m: MmapState, count: nat): int {
    if ArenaUsable(m, count) then LowestFrom(m.arenaUsed, m.arenaSlots, count, 0) else -1
  }

  function WithRun(m: MmapState, first: nat, count: nat): MmapState {
    var used := Or(m.arenaUsed, ArenaMask(first, count));
    m.(arenaUsed := used, peakSlots := Max(m.peakSlots, PopCount(used)))
  }

  function WithoutRun(m: MmapState, first: nat, count: nat): MmapState {
    if count == 0 || first >= ARENA_MAX_SLOTS || first + count > ARENA_MAX_SLOTS then m
    else m.(arenaUsed := AndNot(m.arenaUsed, ArenaMask(first, count)))
  }

  function RunAddress(m: MmapState, first: nat): nat { m.arenaBase + first * SLOT_BYTES }

  lemma {:induction false} WithRunBits(m: MmapState, first: nat, count: nat, k: nat)
    requires 0 < count && first + count <= 64
    ensures Bit(WithRun(m, first, count).arenaUsed, k) <==> Bit(m.arenaUsed, k) || first <= k < first + count
  {
    BitOr(m.arenaUsed, Run(first, count), k);
    BitRun(first, count, k);
  }

  lemma {:induction false} WithoutRunBits(m: MmapState, first: nat, count: nat, k: nat)
    requires 0 < count && first + count <= ARENA_MAX_SLOTS
    ensures Bit(WithoutRun(m, first, count).arenaUsed, k) <==> Bit(m.arenaUsed, k) && !(first <= k < first + count)
  {
    BitAndNot(m.arenaUsed, Run(first, count), k);
    BitRun(first, count, k);
  }

  /** Releasing a run that was just taken gives back the same bitmap. */
  lemma {:induction false} TakeThenRelease(m: MmapState, count: nat)
    requires m.arenaSlots <= ARENA_MAX_SLOTS
    requires TakeIndex(m, count) >= 0
    ensures
      var first := TakeIndex(m, count);
      WithoutRun(WithRun(m, first, count), first, count).arenaUsed == m.arenaUsed
  {
    var first := TakeIndex(m, count);
    var taken := WithRun(m, first, count);
    RunFreeMeaning(m.arenaUsed, first, count);
    forall k: nat
      ensures Bit(WithoutRun(taken, first, count).arenaUsed, k) <==> Bit(m.arenaUsed, k)
    {
      WithRunBits(m, first, count, k);
      WithoutRunBits(taken, first, count, k);
    }
    Extensional(WithoutRun(taken, first, count).arenaUsed, m.arenaUsed);
  }

  /** Taking a run raises the number of used slots by exactly its length. */
  lemma {:induction false} TakeCounts(m: MmapState, count: nat)
    requires TakeIndex(m, count) >= 0 && m.arenaSlots <= ARENA_MAX_SLOTS
    ensures
      PopCount(WithRun(m, TakeIndex(m, count), count).arenaUsed) == PopCount(m.arenaUsed) + count
  {
    var first := TakeIndex(m, count);
    PopCountOr(m.arenaUsed, Run(first, count));
    PopCountRun(first, count);
  }

  // ---------------------------------------------------------------- registering

  function FreeRecordFrom(records: seq<MmapSlot>, i: nat): (r: int)
    requires i <= |records|
    ensures r < 0 ==> r == -1 && forall j | i <= j < |records| :: records[j].used
    ensures r >= 0 ==> i <= r < |records| && !records[r].used && forall j | i <= j < r :: records[j].used
    decreases |records| - i
  {
    if i == |records| then -1
    else if !records[i].used then i
    else FreeRecordFrom(records, i + 1)
  }

  function FreeRecord(m: MmapState): int { FreeRecordFrom(m.records, 0) }

  // The record written for a block at address p.
  function NewRecord(req: Request, p: nat, backing: nat, arenaIndex: int): MmapSlot {
    MmapSlot(p, req.logical, backing, p, p + req.logical, true, req.Window() || req.Aligned256(),
             arenaIndex, req.ArenaCount(), req.KeepCount())
  }

  function Registered(m: MmapState, req: Request, p: nat, backing: nat, arenaIndex: int): MmapState {
    var i := FreeRecord(m);
    if i < 0 then m
    else m.(records := m.records[i := NewRecord(req, p, backing, arenaIndex)],
            backingBytes := m.backingBytes + backing)
  }

  // ---------------------------------------------------------------- unmapping

  predicate Hit(r: MmapSlot, start: nat) {
    r.used && r.liveLo <= start < r.liveHi
  }

  function HitFrom(records: seq<MmapSlot>, start: nat, i: nat): (r: int)
    requires i <= |records|
    ensures r < 0 ==> r == -1 && forall j | i <= j < |records| :: !Hit(records[j], start)
    ensures r >= 0 ==> i <= r < |records| && Hit(records[r], start) && forall j | i <= j < r :: !Hit(records[j], start)
    decreases |records| - i
  {
    if i == |records| then -1
    else if Hit(records[i], start) then i
    else HitFrom(records, start, i + 1)
  }

  // The record whose live interval the section works on, or -1.
  function HitIndex(m: MmapState, start: nat): int { HitFrom(m.records, start, 0) }

  function Limit(r: MmapSlot): nat { r.base + r.logicalSize }

  // Subtraction that stops at zero, as the accounting code writes it.
  function Drop(total: nat, part: nat): nat { if total >= part then total - part else 0 }

  predicate CoversAll(r: MmapSlot, start: nat, end: nat) {
    start <= r.liveLo && r.liveHi <= end
  }

  // The guest gives back exactly the slots above the ones to keep.
  predicate TrimsArena(r: MmapSlot, start: nat, end: nat) {
    && r.arenaIndex >= 0 && 0 < r.keepCount < r.arenaCount
    && start == r.base + r.keepCount * SLOT_BYTES && Limit(r) <= end
  }

  function RunToRelease(r: MmapSlot): nat { if r.arenaCount > 0 then r.arenaCount else 1 }

  // The effect on record i of unmapping [start, end), where `end` is already cut at the limit.
  function UnmapRecord(m: MmapState, i: nat, start: nat, end: nat): MmapState
    requires i < |m.records| && Hit(m.records[i], start)
  {
    var r := m.records[i];
    if CoversAll(r, start, end) then
      var m' := m.(backingBytes := Drop(m.backingBytes, r.backingSize),
                   records := m.records[i := UNUSED]);
      if r.arenaIndex >= 0 then WithoutRun(m', r.arenaIndex, RunToRelease(r)) else m'
    else if start <= r.liveLo && end > r.liveLo then
      m.(records := m.records[i := r.(liveLo := end)])
    else if end >= r.liveHi then
      var r' := r.(liveHi := start);
      if TrimsArena(r, start, end) then
        var kept := r.keepCount * SLOT_BYTES;
        var m' := m.(records := m.records[i := r'.(arenaCount := r.keepCount, backingSize := kept)],
                     backingBytes := Drop(m.backingBytes, Drop(r.backingSize, kept)));
        WithoutRun(m', r.arenaIndex + r.keepCount, r.arenaCount - r.keepCount)
      else
        m.(records := m.records[i := r'])
    else m
  }

  // Unmapping writes one record, and only ever clears bits.
  lemma {:induction false} UnmapRecordShape(m: MmapState, i: nat, start: nat, end: nat)
    requires i < |m.records| && Hit(m.records[i], start)
    ensures
      var m' := UnmapRecord(m, i, start, end);
      && m'.records == m.records[i := m'.records[i]]
      && m'.arenaBase == m.arenaBase && m'.arenaSlots == m.arenaSlots
      && m'.peakSlots == m.peakSlots && m'.fallbackCount == m.fallbackCount
  {
    assert m.records == m.records[i := m.records[i]];
  }

  lemma {:induction false} ReleaseNeverRaises(m: MmapState, first: nat, count: nat)
    ensures PopCount(WithoutRun(m, first, count).arenaUsed) <= PopCount(m.arenaUsed)
  {
    PopCountAndNot(m.arenaUsed, ArenaMask(first, count));
  }

  lemma {:induction false} UnmapRecordUsed(m: MmapState, i: nat, start: nat, end: nat)
    requires i < |m.records| && Hit(m.records[i], start)
    ensures PopCount(UnmapRecord(m, i, start, end).arenaUsed) <= PopCount(m.arenaUsed)
  {
    var r := m.records[i];
    if r.arenaIndex >= 0 {
      ReleaseNeverRaises(m, r.arenaIndex, RunToRelease(r));
      if r.keepCount <= r.arenaCount {
        ReleaseNeverRaises(m, r.arenaIndex + r.keepCount, r.arenaCount - r.keepCount);
      }
    }
  }

  // The section of munmap that runs under the lock.
  function Unmapped(m: MmapState, start: nat, end: nat): MmapState
  {
    var i := HitIndex(m, start);
    if i < 0 then m else UnmapRecord(m, i, start, Min(end, Limit(m.records[i])))
  }

  // The heap block the section leaves to be freed once the lock is dropped, 0 for none.
  function ToFree(m: MmapState, start: nat, end: nat): nat {
    var i := HitIndex(m, start);
    if i < 0 then 0
    else
      var r := m.records[i];
      if CoversAll(r, start, Min(end, Limit(r))) && r.arenaIndex < 0 then r.base else 0
  }

  // ---------------------------------------------------------------- what stays live

  predicate InBounds(r: MmapSlot) { r.used ==> r.liveLo < r.liveHi <= Limit(r) }

  // Record i is the first whose live interval holds `start`.
  predicate FirstHit(records: seq<MmapSlot>, start: nat, i: nat) {
    i < |records| && Hit(records[i], start) && forall j | 0 <= j < i :: !Hit(records[j], start)
  }

  predicate ReachesAnEnd(r: MmapSlot, start: nat, end: nat) { start <= r.liveLo || r.liveHi <= end }

  // The live addresses after unmapping [start, end): the first record hit loses exactly that range if
  // the range reaches one of its ends, and nothing else changes.
  ghost predicate LosesRange(before: seq<MmapSlot>, after: seq<MmapSlot>, start: nat, end: nat) {
    && |after| == |before|
    && forall i: nat, x: nat | i < |before| && InBounds(before[i]) ::
         Hit(after[i], x) <==>
           Hit(before[i], x)
           && !(FirstHit(before, start, i) && ReachesAnEnd(before[i], start, end) && start <= x < end)
  }

  lemma {:induction false} RecordLosesRange(m: MmapState, i: nat, start: nat, end: nat, x: nat)
    requires i < |m.records| && Hit(m.records[i], start) && InBounds(m.records[i]) && start < end
    ensures
      var r := m.records[i];
      Hit(UnmapRecord(m, i, start, Min(end, Limit(r))).records[i], x) <==>
        Hit(r, x) && !(ReachesAnEnd(r, start, end) && start <= x < end)
  {
  }

  /** Unmapping takes exactly the range from the live addresses of the first record it hits. */
  lemma {:induction false} UnmapLosesRange(m: MmapState, start: nat, end: nat)
    requires start < end
    ensures LosesRange(m.records, Unmapped(m, start, end).records, start, end)
  {
    var h := HitIndex(m, start);
    var after := Unmapped(m, start, end).records;
    if h >= 0 { UnmapRecordShape(m, h, start, Min(end, Limit(m.records[h]))); }
    forall i: nat, x: nat | i < |m.records| && InBounds(m.records[i])
      ensures Hit(after[i], x) <==>
        Hit(m.records[i], x)
        && !(FirstHit(m.records, start, i) && ReachesAnEnd(m.records[i], start, end) && start <= x < end)
    {
      if i == h { RecordLosesRange(m, i, start, end, x); }
    }
  }

  // ---------------------------------------------------------------- accounting

  function SumBacking(records: seq<MmapSlot>): nat {
    if |records| == 0 then 0
    else (if records[0].used then records[0].backingSize else 0) + SumBacking(records[1..])
  }

  lemma {:induction false} SumBackingUpdate(records: seq<MmapSlot>, i: nat, r: MmapSlot)
    requires i < |records|
    ensures
      SumBacking(records[i := r]) + (if records[i].used then records[i].backingSize else 0)
        == SumBacking(records) + (if r.used then r.backingSize else 0)
  {
    if i == 0 {
      assert records[i := r][1..] == records[1..];
    } else {
      assert records[i := r][1..] == records[1..][i - 1 := r];
      SumBackingUpdate(records[1..], i - 1, r);
    }
  }

  lemma {:induction false} SumBackingAtLeast(records: seq<MmapSlot>, i: nat)
    requires i < |records| && records[i].used
    ensures records[i].backingSize <= SumBacking(records)
  {
    if i > 0 { SumBackingAtLeast(records[1..], i - 1); }
  }
}
