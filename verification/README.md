# Verification model of the Android compatibility layer

This project models, in Dafny, the parts of a Switch port that re-implement Android's libc and
drivers, and proves what they promise.  Each module is one component:

- `HeapLayout`, `MmapModel`, `MmapTable`, `MmapProtocol`, `MmapSafety`, `MmapLaws`: the heap carve-up
  and the 64 MiB-slot arena behind mmap and munmap.  `MmapTable` is the table as a class whose methods
  are the lock sections; `MmapProtocol` interleaves the sections of any number of calls; `MmapSafety`
  has the theorems about all runs, `MmapLaws` what a guest sees of its addresses.
- `FutexTable`, `FutexProtocol`, `FutexCalls`: the linear-probing slot table, futex wait and wake, and
  whole waits from the call to the return.
- `PthreadMutex`, `MutexCalls`: recursive and error-checking mutexes and condition waits, instruction
  by instruction, and whole calls.
- `ThreadList`, `ThreadLifecycle`, `ThreadCalls`: the linked list of guest threads; create, join,
  detach, exit and reap; and what each call does to the thread it finds.
- `Iovec`: the two-list copy behind process_vm_readv and process_vm_writev.
- `Etc2Format` is the ETC1/ETC2/EAC format as the Khronos Data Format Specification 1.3 gives it
  (chapters 21 and 22); `Etc2Decode` is the decoder.  `Bc1`, `Bc3Alpha` and `Transcode` are the
  encoders, read back as chapter 18 says, and the image loop.
- `PipeModel`, `PipeProtocol`, `PipeSafety`, `PipeCalls`, `FakeFd`: pipes behind fake descriptors, as
  values, as a protocol, and as classes with the ring buffer and the descriptor table updated in place.
- `Glob`: the backtracking fnmatch against a declarative matching relation; `GlobLaws`: what written
  patterns and each flag mean.
- `Utf8`, `Utf8Strings`: the codec and the counted string conversions.
- `Relr`: RELR relocation.  `Resampler`: the audio rate conversion.
- `Bits`, `Digits`, `Common`: machine words as numbers with binary digits, fields packed and unpacked.

Critical sections are methods proved against functions on values.  Runs are sequences of events of a
state machine built from the same functions, so a theorem about all runs is about every interleaving
of the sections.  What the foreign layer does (host mutexes, allocation, file reads, thread exit) is
a parameter or an event with its contract.

Peculiarities of the code that the model keeps: `dup2` closes its target even if the source is not
open; a write whose descriptor was closed while it slept returns -1 although bytes were appended, so
the pipe theorem is stated over the bytes themselves; the number returned by a futex wake can exceed
the number of sleepers (exact condition and a run); pthread_create reads its record once more after
the start of the thread, when a detached thread may be gone with it (exact condition and two runs); an
untrimmed window hides later records from munmap (exact condition and a run); `mbsnrtowcs` clears the
source pointer at a NUL even if the NUL did not fit; a bracket that never ends is an ordinary `[`.

## Model

| member | source | states |
|---|---|---|
| `HeapLayout.CarveUp` | `source/runtime.c:105-133` | The start-up loop gives out of memory exactly if not even one slot fits; otherwise the three regions partition the heap, the arena has the most slots that fit (at most 33), and the arena allocator's own acceptance test holds for it |
| `HeapLayout.StartArena` | `source/runtime.c:120-133` | The carved-up arena, handed to the allocator, is an initial state of the mapping protocol |
| `MmapTable.MmapTable.SetArena` | `source/bionic.c:168-181` | Arena base and slot count are set exactly for the accepted pairs, with the quotient cut to 32 bits, and cleared otherwise |
| `MmapTable.MmapTable.TakeRun` | `source/bionic.c:194-224` | First-fit from either end over the 64-bit bitmap: the index is the first (or last) free run of that length, -1 exactly if there is none, and bitmap, peak and address follow |
| `MmapTable.MmapTable.ReleaseRun` | `source/bionic.c:226-230` | Clears exactly the bits of the run |
| `MmapTable.MmapTable.Register` | `source/bionic.c:326-342` | Enters a block in the first free record with its live interval and backing, and adds to the total |
| `MmapTable.MmapTable.UnmapHit` | `source/bionic.c:390-422` | The branches of munmap, written in place, do to the record they found what the specification of an unmap says, whose effect on the live addresses is UnmapLosesRange |
| `MmapTable.MmapTable.UnmapSection` | `source/bionic.c:376-424` | The section of munmap does to the table what the specification of an unmap says, for every interval and every table; what that specification means is UnmapLosesRange, HeadThenTail and TailThenHead |
| `MmapTable.MmapTable.Munmap` | `source/bionic.c:361-430` | Argument checks with errors, then the unmap of the page-rounded interval; the live addresses lose exactly that interval, as far as it reaches an end of the first record it hits, and a rejected call changes nothing |
| `MmapTable.MmapTable.Obtain` | `source/bionic.c:274-300` | Memory for a reserve comes from the first free run of the arena, and for anything else, or when there is none, from the heap, which is counted as a fallback for a reserve |
| `MmapTable.MmapTable.Mmap` | `source/bionic.c:245-359` | A whole mmap, its failure exits included, as the composition of its sections |
| `MmapModel.RunFreeMeaning` | `source/bionic.c:188-192` | The mask test of the allocator finds a run free exactly if none of its bits is set |
| `MmapModel.WithRunBits` | `source/bionic.c:204-215` | Taking a run sets exactly the bits of the run |
| `MmapModel.WithoutRunBits` | `source/bionic.c:226-230` | Releasing a run clears exactly the bits of the run |
| `MmapModel.TakeThenRelease` | `source/bionic.c:194-230` | Releasing a run that was just taken gives back the same bitmap |
| `MmapModel.TakeCounts` | `source/bionic.c:204-206` | Taking a run raises the number of used slots by its length |
| `MmapModel.UnmapLosesRange` | `source/bionic.c:377-422` | The first record that munmap hits loses exactly the unmapped interval from its live addresses if the interval reaches one of its ends; no other live address changes |
| `MmapProtocol.UnmapAccounting` | `source/bionic.c:390-419` | backing_bytes stays the sum of the record backings, so the saturating subtractions never saturate |
| `MmapSafety.InitialInv` | `source/bionic.c:161-181` | The invariant holds once the arena is set |
| `MmapSafety.StepKeeps` | `source/bionic.c:245-430` | Every lock section and every foreign call in between keeps: each used slot and each heap block has exactly one owner (a record or a mapping not yet registered), every record has base <= live_lo < live_hi <= base + logical, and the totals agree |
| `MmapSafety.RunKeeps` | `source/bionic.c:245-430` | The same over every interleaving of any number of calls |
| `MmapSafety.NothingLeaks` | `source/bionic.c:278-424` | When no call is under way and no record is used, no slot and no heap block is in use |
| `MmapSafety.OnlyOwnSlotsReleased` | `source/bionic.c:226-415` | Every slot that any section passes to the release of the arena is in use at that moment and belongs to the record or call that gives it back and to nobody else; the run is not empty and lies in the arena |
| `MmapSafety.ReleaseIsExact` | `source/bionic.c:226-415` | The bitmap loses exactly the slots that were passed to the release, and none in any other step |
| `MmapSafety.OnlyOwnBlocksFreed` | `source/bionic.c:303-427` | Every address that any step passes to free is that of a live heap block, belongs to the call that frees it and to nobody else, and exactly that block goes |
| `MmapSafety.FileMemoryIsHeap` | `source/bionic.c:313-322` | The free after a failed file read is always given heap memory, never arena memory |
| `MmapSafety.MisalignedIsDead` | `source/bionic.c:303-311` | The branch for misaligned memory is never taken |
| `MmapSafety.PeakIsHistoricalMaximum` | `source/bionic.c:204-217` | The peak counter is the largest number of slots in use at any point of the run |
| `MmapSafety.BackingsDisjoint` | `source/bionic.c:326-342` | The memory behind two used records never overlaps |
| `MmapSafety.UnmapFindsOwnRecord` | `source/bionic.c:377-388` | munmap at an address of a record's own memory works on that record if and only if no earlier record has an untrimmed window over the address |
| `MmapSafety.TrimmedHitsAreUnique` | `source/bionic.c:382-388` | Once every live interval lies inside its memory, an address hits at most one record |
| `MmapSafety.UnmapTouchesOneRecord` | `source/bionic.c:377-423` | munmap changes no record but the one it hits, and nothing at all strictly inside a live interval |
| `MmapSafety.MapThenUnmapRestores` | `source/bionic.c:245-430` | Mapping a reserve and unmapping all of it at once restores bitmap, records and totals if and only if no earlier record has a window over the address |
| `MmapSafety.WholeUnmapGivesBack` | `source/bionic.c:326-430` | Whatever all calls do in between, the munmap of a whole mapping that works on its record gives back exactly the slots or the heap block the mapping was given, and frees the record |
| `MmapSafety.TrimReleasesFifthSlot` | `source/bionic.c:403-419` | Trimming the 256 MiB + 64 MiB reserve releases its fifth slot and keeps the other four |
| `MmapSafety.UntrimmedWindowsShadow` | `source/bionic.c:377-388` | A run in which unmapping the second of two untrimmed windows hits the record of the first: the condition of UnmapFindsOwnRecord is needed |
| `MmapLaws.ReservedSizes` | `source/bionic.c:118-135` | Exactly three anonymous sizes are served from the arena, with one, one and five slots, of which a trim keeps one, one and four |
| `MmapLaws.EnteredMapping` | `source/bionic.c:253-342` | A mapping is live at exactly the addresses asked for, all of them backed by memory; of a window exactly the first slot is; a window and a direct mapping take one slot, the 320 MiB reserve the shortest run that covers it |
| `MmapLaws.LiveMemoryIsBacked` | `source/bionic.c:245-430` | Over every run from the start, every live address of a mapping that is not a window lies in memory its record holds |
| `MmapLaws.UnmapTakesNoLiveMemory` | `source/bionic.c:377-422` | No address that stays live loses the memory it had, whatever an unmap trims |
| `MmapLaws.HeadThenTail` | `source/bionic.c:390-422` | Unmapping a mapping in two adjacent pieces, first piece first, leaves the state that unmapping it whole leaves: record, total, slots and the block to free |
| `MmapLaws.TailThenHead` | `source/bionic.c:390-422` | The same with the last piece first, also when that piece trims slots off the arena run |
| `MmapLaws.FallbacksAreCounted` | `source/bionic.c:298` | Over every run the fallback counter grows by one for each fallback and in no other step |
| `MmapLaws.CallFinishes` | `source/bionic.c:324-427` | A call with memory in hand can finish by itself in at most two more steps, whatever state the others left |
| `MmapLaws.HeapServes` | `source/bionic.c:286-342` | A request that heap memory serves is entered with exactly that block, if a record is free |
| `MmapLaws.FileErrorEnds` | `source/bionic.c:313-322` | After a failed file read the heap block is freed and nothing else has changed |
| `FutexTable.FutexRegistry.SlotGet` | `source/bionic.c:473-499` | Linear probing refines a map, for every power-of-two size: the slot of the key if it has one, a new one if asked and there is room, -1 exactly if the key is absent and (not creating or the table is full of other keys); no key is ever duplicated or lost |
| `FutexTable.FutexRegistry.EnterWait` | `source/bionic.c:523-525` | One more waiter and call, and the peak is kept |
| `FutexTable.FutexRegistry.LeaveWait` | `source/bionic.c:556-561` | One waiter fewer, modulo the unsigned counter, and the time-out counted |
| `FutexTable.FutexRegistry.Wake` | `source/bionic.c:583-601` | The result is the smaller of request and waiters, and the signals sent are one, that many or a broadcast |
| `FutexTable.KeyIsAhead` | `source/bionic.c:478-497` | Every entered key is reachable from its hash through used slots only |
| `FutexTable.NoKeyLeft` | `source/bionic.c:478-497` | A probe that meets a free slot or goes all the way round has missed no key |
| `FutexTable.InsertKeepsProbed` | `source/bionic.c:486-495` | Entering a key keeps every key reachable |
| `FutexProtocol.StepKeeps` | `source/bionic.c:501-609` | Every step of every thread keeps each slot's waiter count equal to the number of threads between entering and leaving it |
| `FutexProtocol.RunKeeps` | `source/bionic.c:501-609` | The same over every interleaving |
| `FutexProtocol.WakeSeesEveryWaiter` | `source/bionic.c:583-586` | When a wake gets the slot lock, every thread that passed the test on the word and has not returned is counted |
| `FutexProtocol.NoSlotNoWaiter` | `source/bionic.c:580-581` | If a wake finds no slot, no thread is waiting on the word |
| `FutexProtocol.WakeWakesEnough` | `source/bionic.c:583-604` | A wake wakes as many sleepers as asked for or all of them; the number it returns is larger if and only if it asks for more than sleep and some counted thread is already awake |
| `FutexProtocol.WakeCountsTheAwake` | `source/bionic.c:556-604` | A run from the start in which a waiter times out, and a wake for one then returns 1 and wakes nobody |
| `FutexProtocol.LookUp` | `source/bionic.c:473-499` | A lookup in the registry is a step the protocol allows, and leaves the table that step leaves |
| `FutexProtocol.WakeAllReleases` | `source/bionic.c:592-601` | A wake for everyone leaves no thread asleep on the word |
| `FutexProtocol.NoMissedWake` | `source/bionic.c:516-604` | After the word moved away from the tested value and a wake for everyone ran, no thread is asleep on the old value for as long as the word stays away, in any continuation |
| `FutexCalls.WaitOutcome` | `source/bionic.c:505-562` | A whole wait under every interleaving: without having slept it returns only EAGAIN, with the word different at its test, or EINVAL for a bad time-out; 0 only after it slept and was woken through its word or by the periodic recheck; ETIMEDOUT only after it slept and its own time-out ran out |
| `FutexCalls.MatchingWordSleeps` | `source/bionic.c:516-549` | With the slot lock held and the word at its value, the test and the sleep are possible, with or without a time-out, and leave the thread asleep, the lock free and one more waiter |
| `FutexCalls.NoRoomToWait` | `source/bionic.c:506-515` | A wait is turned away with ENOMEM exactly if its word has no slot and none is free |
| `FutexCalls.FreeLockIsTaken` | `source/bionic.c:516` | A wait takes the slot lock exactly when nobody holds it |
| `FutexCalls.WokenAreAwake` | `source/bionic.c:592-601` | A wake takes exactly the threads it wakes off the queue of its word, and moves nobody else |
| `FutexCalls.CountersCount` | `source/bionic.c:523-590` | Over every run each counter of a slot grows by exactly the waits, wakes, returned numbers, time-outs and rechecks it is there to count |
| `FutexCalls.PeakIsHistoricalMaximum` | `source/bionic.c:523-525` | The peak of a slot is the most waiters there ever were at once |
| `FutexCalls.AloneFinishes` | `source/bionic.c:516-562` | A wait whose thread goes on alone, with the slot lock free or its own, comes to its end |
| `PthreadMutex.StepKeeps` | `source/bionic.c:711-819` | Every single load and store of lock, trylock, unlock and the condition wait, those of ++ and -- included, keeps owner, depth and host mutex consistent |
| `PthreadMutex.RunKeeps` | `source/bionic.c:711-819` | The same over every interleaving of instructions |
| `PthreadMutex.MutualExclusion` | `source/bionic.c:711-763` | At most one thread owns the mutex, and it holds the host mutex |
| `PthreadMutex.UnlockedOwnerTestIsSound` | `source/bionic.c:714-730` | Reading one's own id in owner_tid without the lock happens exactly if the reader has locks to undo |
| `PthreadMutex.ReturnCodes` | `source/bionic.c:711-763` | Each result says exactly how many locks the thread held and what became of them |
| `PthreadMutex.ErrorCheckDepth` | `source/bionic.c:711-736` | An error-checking mutex is never held twice |
| `PthreadMutex.WaitRestoresOwnership` | `source/bionic.c:789-819` | Whatever the others do meanwhile, a thread back from its condition waits owns the mutex at the depth it had |
| `PthreadMutex.DeepWaitKeepsHost` | `source/bionic.c:789-819` | A wait at depth 2 or more keeps the host mutex while it sleeps; that every such wait does sleep is WaitOutcome |
| `PthreadMutex.ShallowWaitReleases` | `source/bionic.c:789-819` | A wait at depth 1 leaves the mutex free while it sleeps; that every such wait does sleep is WaitOutcome |
| `MutexCalls.LockOutcome` | `source/bionic.c:711-745` | A whole lock or trylock under every interleaving: a thread without the mutex gets it, or hears EBUSY from a trylock that found another holder; a thread that has it gets one more lock, EAGAIN at the limit, or EDEADLK of an error-checking mutex |
| `MutexCalls.UnlockOutcome` | `source/bionic.c:747-763` | A whole unlock undoes one lock and with the last one frees owner, depth and host mutex; without a lock it is EPERM |
| `MutexCalls.WaitOutcome` | `source/bionic.c:789-819` | A whole condition wait: called with one lock it goes to sleep with holder, owner and depth cleared; with more it goes to sleep with the host mutex kept throughout; it returns OK with the locks it had, and refuses a thread without the mutex |
| `MutexCalls.WaitReturnsFrom` | `source/bionic.c:799-818` | A wait returns OK only from the store that takes the mutex back, or from the one that restores the depth |
| `MutexCalls.CallBegins` | `source/bionic.c:711-819` | Every call has instructions to execute before it returns |
| `MutexCalls.AloneFinishes` | `source/bionic.c:711-819` | A call whose thread executes alone, with the host mutex free or its own, comes to its end |
| `MutexCalls.CallsAreShort` | `source/bionic.c:711-819` | No call executes more than nine instructions of its own |
| `MutexCalls.NeverStuck` | `source/bionic.c:711-819` | A thread in a call can execute, unless it waits for a host mutex that somebody holds |
| `MutexCalls.IdleMayCall` | `source/bionic.c:711-819` | A thread outside a call may make any call |
| `ThreadList.GuestThreads.Find` | `source/bionic.c:942-946` | The first listed record with the id, or none exactly if no record has it |
| `ThreadList.GuestThreads.Add` | `source/bionic.c:1009-1016` | The record goes to the front and the rest of the linked list is unchanged |
| `ThreadList.GuestThreads.Remove` | `source/bionic.c:1017-1025` | Takes exactly that record out of the linked list, or reports that it was not listed |
| `ThreadList.GuestThreads.TakeVictim` | `source/bionic.c:1026-1046` | Takes out the first record that is detached, not joined, not the caller's and exited, if there is one |
| `ThreadLifecycle.StepKeeps` | `source/bionic.c:1009-1217` | Every section of create, join, detach, exit and reap, and the last read of create outside the lock, keeps each record with exactly one party that may free it |
| `ThreadLifecycle.RunKeeps` | `source/bionic.c:1009-1217` | The same over every interleaving |
| `ThreadLifecycle.FreedOncePerCreate` | `source/bionic.c:1118-1201` | Over every run from the start, counting every free whatever it finds at its address, a record is freed exactly once for each time it was created, or is still live |
| `ThreadLifecycle.FreeIsSafe` | `source/bionic.c:1026-1201` | At a free the record is live and off the list, its thread has ended, its handle is closed, no other call works on it, and a create that has still to read it has a detached thread |
| `ThreadLifecycle.AttributeArrives` | `source/bionic.c:1126-1147` | Until the thread is started nobody changes whether it is detached: the pending read starts with what the attributes of its create asked for |
| `ThreadLifecycle.LastReadIsSafeUnlessDetached` | `source/bionic.c:1147-1159` | The record that create reads after starting the thread can be freed before that read if and only if the thread is detached, in runs where ids are used only after their create returned; otherwise the read finds it live |
| `ThreadLifecycle.LastReadOvertaken` | `source/bionic.c:1147-1201` | Two runs from the start that free the record before its create has read it: one created detached, one where the thread detaches itself |
| `ThreadLifecycle.FindListed` | `source/bionic.c:942-946` | The search along the links in memory finds the record that the search in the protocol finds |
| `ThreadLifecycle.TakeListedVictim` | `source/bionic.c:1026-1046` | The section of the reaper takes out the node in memory that its step in the protocol takes out |
| `ThreadLifecycle.FreerIsDetermined` | `source/bionic.c:1026-1201` | The freer is the joiner, the reaper or the failed create, as the record's fate settles |
| `ThreadLifecycle.JoinerKeepsItsRecord` | `source/bionic.c:1162-1189` | No record leaves the list while a joiner waits on it, except by that joiner; that a join of a joinable thread does wait is JoinJoins |
| `ThreadLifecycle.ListedIdsDistinct` | `source/bionic.c:1118-1161` | Two listed threads never share an id |
| `ThreadLifecycle.JoinedResultIsFinal` | `source/bionic.c:1162-1189` | The result handed out by join is never written again; that it is the one the thread stored is JoinHandsOutTheResult |
| `ThreadLifecycle.NothingLost` | `source/bionic.c:1026-1046` | With no call under way every live record is listed, started and open |
| `ThreadCalls.AddListsFirst` | `source/bionic.c:1009-1016` | A record that is added goes to the front of the list, and its id finds it |
| `ThreadCalls.AnswerMeans` | `source/bionic.c:1168-1176` | Join and detach answer ESRCH exactly if no listed record has the id, and EINVAL exactly if that record is detached or being joined |
| `ThreadCalls.JoinJoins` | `source/bionic.c:1168-1178` | In every state of the invariant a join of a joinable thread marks exactly its record and waits on it |
| `ThreadCalls.JoinRefuses` | `source/bionic.c:1168-1176` | Any other join changes nothing |
| `ThreadCalls.DetachDetaches` | `source/bionic.c:1190-1198` | A detach of a joinable thread marks exactly its record |
| `ThreadCalls.DetachRefuses` | `source/bionic.c:1190-1198` | Any other detach changes nothing |
| `ThreadCalls.ReapTakes` | `source/bionic.c:1026-1046` | The reaper takes the first record that may be reaped off the list, and nothing if there is none |
| `ThreadCalls.JoinHandsOutTheResult` | `source/bionic.c:1054-1189` | Over every run from the start, the result a join is about to hand out is what the thread stored when it finished |
| `ThreadCalls.JoinCompletes` | `source/bionic.c:1178-1189` | A join whose thread has exited can go on to its end, and leaves the state without its call and its record |
| `ThreadCalls.JoinFromTheStart` | `source/bionic.c:1118-1189` | A run from the start in which a thread is created, joined, stores 42, exits, and leaves nothing behind |
| `ThreadCalls.AbortEnds` | `source/bionic.c:1138-1143` | A create without a thread gives its record back and changes nothing else |
| `ThreadCalls.FailedStartLeavesNothing` | `source/bionic.c:1147-1156` | A create whose thread cannot be started takes its record off the list and gives it back |
| `ThreadCalls.FailedWaitLetsGo` | `source/bionic.c:1178-1182` | A join whose wait fails clears its mark and lets the record go |
| `ThreadCalls.CallsGoOn` | `source/bionic.c:1118-1201` | No call is ever stuck: its next step is possible in every state of the invariant |
| `Iovec.Transfer` | `source/bionic.c:650` | The loop ends for every fragment lengths, zeros included; memory becomes the byte-by-byte copy of the flattened lists up to the number of bytes copied; it stops early only at the start of the chunk that holds the first unreadable byte, and returns -1 exactly if that is the first byte's chunk |
| `Iovec.TransferMeans` | `source/bionic.c:650` | With readable source, distinct target bytes and no overlap: the minimum of the two totals is copied, the flattened prefixes become equal, every other byte is unchanged |
| `Etc2Decode.BranchesAreModes` | `source/etc2_bc.c:59-118` | The byte-scaled overflow tests choose a branch exactly for the mode that the five-bit sums of the format choose; exactly one branch is taken |
| `Etc2Decode.IndividualFields` | `source/etc2_bc.c:119-124` | The byte shuffles of individual mode are the extended fields of the 64-bit word |
| `Etc2Decode.DifferentialFields` | `source/etc2_bc.c:60-65` | The byte shuffles of differential mode are the extended five-bit base and sum |
| `Etc2Decode.TFields` | `source/etc2_bc.c:68-74` | The byte shuffles of T mode are the extended fields, and the distance index is in range |
| `Etc2Decode.HFields` | `source/etc2_bc.c:79-88` | The byte shuffles of H mode are the extended fields, and comparing expanded colours orders the raw 12-bit ones |
| `Etc2Decode.PlanarFields` | `source/etc2_bc.c:93-101` | The byte shuffles of planar mode are the extended 6- and 7-bit fields |
| `Etc2Decode.WriteOrderTransposes` | `source/etc2_bc.c:14-19` | The write order is the transposition, and the alpha order its reverse |
| `Etc2Decode.PaintTexels` | `source/etc2_bc.c:76-77` | The shifting loop of T and H mode writes each pixel once, chosen by its own two index bits |
| `Etc2Decode.ShadeImage` | `source/etc2_bc.c:113-116` | The shifting loop of individual and differential mode writes each pixel once, in row-major order |
| `Etc2Decode.PlaneTexels` | `source/etc2_bc.c:101-106` | The planar loops write the clamped plane equation at every pixel |
| `Etc2Format.PlaneIsLinear` | `source/etc2_bc.c:101-106` | The plane goes from the first colour at the origin to the second four texels right and the third four texels down; every texel is the value of the plane there, rounded to the nearest and clamped |
| `Etc2Format.ClampIsNearest` | `source/etc2_bc.c:39-41` | Clamping gives the value of 0..255 that is nearest |
| `Etc2Decode.DecodeRgb` | `source/etc2_bc.c:54-129` | For all eight bytes the decoder writes exactly the image the format defines |
| `Etc2Decode.RowsAreTexels` | `source/etc2_bc.c:54-129` | Pixel p of that image is the texel of column p % 4 and row p / 4 of the reference |
| `Etc2Decode.DecodeAlpha` | `source/etc2_bc.c:137-150` | The alpha pass gives every pixel the format's clamped alpha; the shortcut for multiplier 0 agrees with the general formula |
| `Etc2Decode.AlphaLeavesColour` | `source/etc2_bc.c:144-145` | The alpha pass changes no colour channel |
| `Bc1.Endpoints` | `source/etc2_bc.c:163-180` | The endpoints are the quantised, shrunk corners of the colour box, moved apart if equal; the swap changes nothing |
| `Bc1.EndsDescend` | `source/etc2_bc.c:174-180` | Quantisation is monotone, so the corners are never swapped and c0 > c1 for every block |
| `Bc1.FindNearest` | `source/etc2_bc.c:189-194` | The chosen entry has the least squared distance, and the lowest index among those |
| `Bc1.ChooseIndices` | `source/etc2_bc.c:186-196` | The 32 packed bits hold the nearest index of every pixel |
| `Bc1.EncodeColor` | `source/etc2_bc.c:163-198` | A decoder that reads the eight bytes back sees, at every pixel, the nearest entry of its own palette; nothing else is written |
| `Bc1.AlwaysFourColours` | `source/etc2_bc.c:179-185` | The decoder always selects the four-colour palette that the encoder measured against |
| `Bc1.BlockError` | `source/etc2_bc.c:163-198` | Every decoded pixel of every block is within squared distance (R + 7)^2 + (G + 3)^2 + (B + 7)^2 of its input, where R, G and B are the channel ranges of the block |
| `Bc1.SolidError` | `source/etc2_bc.c:163-198` | A block of one colour decodes within squared distance 107 |
| `Bc1.CornersMean` | `source/etc2_bc.c:164-177` | Field by field, the corners are the greatest and least channel values of the block, each moved inwards by the whole sixteenths of their distance |
| `Bc1.EndsMean` | `source/etc2_bc.c:178-179` | The endpoints are the corners; equal corners are moved apart by one, the upper one unless it is all ones |
| `Bc1.ThirdsAreRounded` | `source/etc2_bc.c:182-185` | The third and fourth colour are the thirds between the endpoints, rounded to the nearest |
| `Bc3Alpha.Palette` | `source/etc2_bc.c:207-213` | The table built is the one a decoder derives from the order of the endpoints, all entries in range |
| `Bc3Alpha.FindNearest` | `source/etc2_bc.c:216-220` | The chosen value is nearest, and has the lowest index among those |
| `Bc3Alpha.ChooseIndices` | `source/etc2_bc.c:214-222` | The 48 packed bits hold the nearest index of every pixel |
| `Bc3Alpha.EncodeAlpha` | `source/etc2_bc.c:200-225` | A decoder that reads the eight bytes back sees, at every pixel, the nearest of its own eight values; nothing else is written |
| `Bc3Alpha.FlatIsExact` | `source/etc2_bc.c:210-213` | A block of one alpha decodes exactly |
| `Bc3Alpha.AlphaError` | `source/etc2_bc.c:200-225` | Every decoded alpha is within ((max - min + 6) / 7) / 2 of its input, at most 18 |
| `Bc3Alpha.BlendIsRounded` | `source/etc2_bc.c:208-213` | Every interpolated alpha is its point between the endpoints, rounded to the nearest |
| `Digits.DigitOfPacked` | `source/etc2_bc.c:195` | Digits come out of a packed number as they went in |
| `Digits.OrDigit` | `source/etc2_bc.c:221` | Or-ing a field above the bits so far appends a digit |
| `Transcode.SizeIsExact` | `source/etc2_bc.c:227-234` | For all C ints the size is blocks times block size; the overflow guards are never taken |
| `Transcode.Transcode` | `source/etc2_bc.c:236-257` | Success exactly for acceptable arguments; then every block encodes what its source block decodes to and nothing beyond the image is written; otherwise nothing is written |
| `Transcode.AlphaSurvives` | `source/etc2_bc.c:236-257` | Every alpha that a decoder reads from an RGBA8 output is within 18 of the alpha that the ETC2 source block has there |
| `Transcode.ColourSurvives` | `source/etc2_bc.c:236-257` | Every colour that a decoder reads from an RGB8 output is within the error bound of the ETC2 source block's texel |
| `FakeFd.PipeState.Take` | `source/fakefd.c:164-171` | The two-part copy takes the oldest bytes out of the ring across the wrap-around |
| `FakeFd.PipeState.Append` | `source/fakefd.c:223-230` | The two-part copy appends bytes to the ring across the wrap-around |
| `FakeFd.FakeFds.AllocSlotFrom` | `source/fakefd.c:60-69` | The scan for a free slot is the specification's search |
| `FakeFd.FakeFds.MakePipe` | `source/fakefd.c:85-128` | pipe with its EMFILE and ENOMEM exits, which restore the table |
| `FakeFd.FakeFds.Read` | `source/fakefd.c:130-175` | read up to its return or its sleep, with all error exits: a count returned is the number of bytes taken out of the pipe, the smaller of what was asked for and what was there, and they are its head, at the start of the buffer; any other exit moves nothing |
| `FakeFd.FakeFds.ReadAgain` | `source/fakefd.c:152-174` | read after a sleep: the same of the count, the bytes and the buffer, and EBADF exactly if the descriptor no longer names the pipe |
| `FakeFd.FakeFds.Write` | `source/fakefd.c:177-237` | write up to its return or its sleep: the number returned or slept with is the number of bytes put into the pipe, as many as were offered and fit; it fails only if there are none |
| `FakeFd.FakeFds.WriteAwake` | `source/fakefd.c:208-236` | write after a sleep: the number counts the bytes put in since the call began; EBADF exactly if the descriptor no longer names the pipe, even if bytes were appended before |
| `FakeFd.FakeFds.Close` | `source/fakefd.c:239-262` | close drops the count and frees the pipe with its last descriptor |
| `FakeFd.FakeFds.CloneIntoSlot` | `source/fakefd.c:264-272` | The copy of an entry into a free slot counts one more end |
| `FakeFd.FakeFds.Dup` | `source/fakefd.c:274-293` | dup with its EBADF and EMFILE exits |
| `FakeFd.FakeFds.CloneSection` | `source/fakefd.c:304-315` | The second locked section of dup2 on whatever table it finds: EBADF if the source is closed, EBUSY if the target was taken meanwhile, else a second name |
| `FakeFd.FakeFds.Dup2` | `source/fakefd.c:295-316` | The sections of dup2 one after the other, with all its exits; with nobody in between EBUSY is never returned |
| `FakeFd.FakeFds.Poll` | `source/fakefd.c:351-370` | fakefd_ready |
| `PipeProtocol.StepKeeps` | `source/fakefd.c:85-316` | Every section keeps reader and writer counts equal to the open entries of each kind, every pipe alive exactly while an entry refers to it, and at most 16384 bytes in it |
| `PipeProtocol.RunKeeps` | `source/fakefd.c:85-316` | The same over every interleaving |
| `PipeProtocol.LiveIffReferenced` | `source/fakefd.c:254-259` | A pipe is in memory if and only if some open descriptor refers to it |
| `PipeProtocol.PipeIsFifo` | `source/fakefd.c:130-237` | Over every interleaving through any descriptors, what was in the pipe followed by everything written is everything read followed by what is in it now |
| `PipeProtocol.PipeTakesLowestTwo` | `source/fakefd.c:92-105` | pipe takes the two lowest free slots, reader first |
| `PipeSafety.DupTakesLowest` | `source/fakefd.c:60-69` | dup takes the lowest free descriptor at or above the minimum, and fails exactly if there is none |
| `PipeSafety.Dup2Replaces` | `source/fakefd.c:295-316` | dup2 makes the target a second name for the source and touches no other entry; it fails exactly if the source is closed, and closes the target even then |
| `PipeSafety.ReadinessAgrees` | `source/fakefd.c:351-370` | Readable, writable and error are reported exactly when a non-blocking read or write of at least one byte returns a count, or fails for good |
| `PipeSafety.HangupMeansOtherEndGone` | `source/fakefd.c:361-366` | Hang-up is reported exactly when no descriptor of the other end is open |
| `PipeSafety.ZeroMeansEnd` | `source/fakefd.c:160-163` | A read of at least one byte returns 0 only if the pipe is empty and no writer is open |
| `PipeSafety.SleepsOnlyWhenBlocked` | `source/fakefd.c:146-152` | A call goes to sleep only while what it waits for is not there |
| `PipeSafety.BlockedUntilWoken` | `source/fakefd.c:146-258` | A sleeping call stays blocked through every section that wakes nobody: no change is missed |
| `PipeSafety.BlockedOverQuietRun` | `source/fakefd.c:146-258` | The same over every run without a wake-up |
| `PipeSafety.ResumedSleeps` | `source/fakefd.c:146-214` | A resumed call sleeps again, gives EAGAIN or its partial count, or gives EBADF, exactly by the state it finds |
| `PipeCalls.ReadCounts` | `source/fakefd.c:146-174` | Every first or resumed read, in every interleaving: a count is the number of bytes taken out, the smaller of what was asked for and what was there; 0 only at the end of the stream; it sleeps or gives EAGAIN exactly while there is nothing to read and a writer is there |
| `PipeCalls.WriteCounts` | `source/fakefd.c:201-236` | Every first or resumed write: the number is the bytes put in since the call began; it is short only without a reader or without blocking, and fails only if no byte went in |
| `PipeCalls.ReadReturnsCount` | `source/fakefd.c:130-175` | A whole read, whatever others do while it sleeps: the count is the number of bytes all its sections took |
| `PipeCalls.WriteReturnsTotal` | `source/fakefd.c:177-237` | A whole write, whatever others do while it sleeps: the total returned is the number of bytes all its sections put into the pipe, which are the first ones it was given; only EBADF can hide bytes that went in |
| `PipeCalls.SleepersResume` | `source/fakefd.c:151-214` | After every run each call that sleeps can be resumed |
| `PipeCalls.PipeOpens` | `source/fakefd.c:92-122` | A pipe gets two new descriptors, the lower for reading, and starts out empty |
| `PipeCalls.CloseCloses` | `source/fakefd.c:239-262` | A close empties its slot, and frees the pipe exactly if it had no other descriptor |
| `PipeCalls.DuplicateNames` | `source/fakefd.c:264-293` | A dup makes the lowest free descriptor from its minimum on a second name for its source, or changes nothing if there is none |
| `PipeCalls.CloneNames` | `source/fakefd.c:304-315` | The second half of dup2 names the source in a free target, and leaves a taken one alone |
| `PipeCalls.FlagsAreSet` | `source/fakefd.c:334-339` | Setting the flags of a descriptor changes nothing else |
| `Glob.StarsCollapse` | `source/imports.c:529` | Stars in a row match what one star matches |
| `Glob.OneCharacter` | `source/imports.c:543-556` | Every other token consumes exactly one character |
| `Glob.FnmClass` | `source/imports.c:506-524` | The bracket scan returns membership and the place after the bracket, and -1 exactly if the bracket never ends |
| `Glob.MatchStar` | `source/imports.c:528-542` | The star with its end-of-pattern shortcuts matches exactly if some stretch can be skipped |
| `Glob.Fnmatch` | `source/imports.c:525-561` | The matcher ends on every pattern, string and flag set, and matches exactly if cut points exist that give each token its stretch |
| `Glob.EscapedMatchesItself` | `source/imports.c:553` | A fully escaped text matches exactly itself |
| `Glob.SlashesAreLiteral` | `source/imports.c:537-554` | Under PATHNAME only a literal slash matches a slash |
| `GlobLaws.TextReadsBack` | `source/imports.c:506-561` | Every list of tokens, brackets with ranges and negation included, is what its written form is read as |
| `GlobLaws.BracketMatches` | `source/imports.c:506-524` | A bracket of plain characters and ranges matches exactly the one-character strings that one of its items covers; a negated one exactly those that none covers |
| `GlobLaws.RangeMatches` | `source/imports.c:506-524` | [a-b] and [^a-b] match exactly the one-character strings inside and outside the range |
| `GlobLaws.EdgesOfBrackets` | `source/imports.c:509-513` | A ] that comes first and a - that comes last stand for themselves |
| `GlobLaws.UnendedIsLiteral` | `source/imports.c:523-549` | A [ with no ] after it stands for itself |
| `GlobLaws.LimitsMean` | `source/imports.c:502-554` | PATHNAME and PERIOD take away exactly the matches in which something other than a literal covers a slash or a leading period, or in which a star begins at a leading period |
| `GlobLaws.LeadingDirMeans` | `source/imports.c:530-559` | LEADING_DIR matches exactly if the string or one of its leading directories matches without it |
| `GlobLaws.CaseFoldMeans` | `source/imports.c:498-519` | CASEFOLD matches exactly as pattern and string in lower case do |
| `GlobLaws.OrdinaryMatchesItself` | `source/imports.c:553-555` | Ordinary text matches exactly itself; under NOESCAPE a backslash is ordinary |
| `GlobLaws.NoFlagsMeans` | `source/imports.c:525-561` | Without flags a written pattern matches exactly what the usual recursive reading of its tokens accepts |
| `Utf8.DecodesGrammar` | `source/imports.c:652-660` | The decoder accepts a prefix exactly if it is a character of RFC 3629 section 4, and takes all of it |
| `Utf8.DecodedReencodes` | `source/imports.c:652-667` | What is decoded is a scalar value that encodes to the same bytes |
| `Utf8.EncodedDecodes` | `source/imports.c:652-667` | Every scalar value encodes to bytes that decode to it, whatever follows |
| `Utf8.ScalarsOnly` | `source/imports.c:667` | The encoder refuses exactly the codes that are no scalar values |
| `Utf8.OrderIsKept` | `source/imports.c:667` | The order of codes is the byte order of their encodings (section 1 of RFC 3629), so no two codes trade their bytes |
| `Utf8Strings.EncodeThenDecode` | `source/imports.c:661-673` | Encoding and decoding any list of non-NUL scalar values returns the list |
| `Utf8Strings.DecodeThenEncode` | `source/imports.c:661-673` | Whatever the decoder accepts re-encodes to exactly the bytes it used |
| `Utf8Strings.AcceptsGrammar` | `source/imports.c:661-666` | The decoder reaches the end exactly of the NUL-free strings of RFC 3629 section 4 |
| `Utf8Strings.CountIsLengthRead` | `source/imports.c:661-666` | The NULL-destination count is the length a long enough destination gets; a short one gets a prefix |
| `Utf8Strings.NeverSplits` | `source/imports.c:668-673` | The encoder's output is always the encoding of whole characters and fits |
| `Utf8Strings.StopsForAReason` | `source/imports.c:668-673` | The encoder stops at the first NUL, the first code without encoding or the first character with no room |
| `Utf8Strings.CountIsLengthWritten` | `source/imports.c:668-673` | The NULL-destination count is the length a long enough destination gets |
| `Utf8Strings.ReadingStopsForAReason` | `source/imports.c:661-666` | The decoder stops at the end, the first NUL, the first bytes that start no character of the grammar, or when the destination is full |
| `Utf8Strings.ThereAndBack` | `source/imports.c:661-673` | A terminated string converted to bytes and back is stored again with its NUL; both calls return the length, clear the source pointer, and count the same without a destination |
| `Utf8Strings.ReadingResumes` | `source/imports.c:661-666` | After a full destination, a second call from where the source pointer was left reads exactly what was missing |
| `Utf8Strings.WritingResumes` | `source/imports.c:668-673` | The same in the other direction |
| `Utf8Strings.Mbsnrtowcs` | `source/imports.c:661-666` | Result, source pointer and destination buffer of mbsnrtowcs in every case |
| `Utf8Strings.Wcsnrtombs` | `source/imports.c:668-673` | Result, source pointer and destination buffer of wcsnrtombs in every case |
| `Relr.AddressesIncrease` | `source/so_util.c:121-128` | A well-formed stream lists increasing addresses whose words do not overlap |
| `Relr.EntryMeans` | `source/so_util.c:121-128` | An even entry is an address; bit b of an odd entry, from 1 to 63, selects word b - 1 of the 63 words that come next |
| `Relr.ProcessRelr` | `source/so_util.c:121-128` | The nested loops add the base, modulo 2^64, to the eight bytes at exactly the listed addresses, in order, whatever their alignment |
| `Relr.WellFormedOnce` | `source/so_util.c:121-128` | For a well-formed stream the base is added exactly once to each listed word and no other byte changes |
| `Relr.PackingRoundTrip` | `source/so_util.c:121-128` | Decoding the canonical packing of any increasing aligned list gives back the list |
| `Resampler.OpenIsLegal` | `source/aaudio_bridge.c:539-571` | open accepts exactly the allowed directions, callbacks, rates, channel counts and sample formats, says which error the others get, and then establishes the limits |
| `Resampler.OpenKeepsRequest` | `source/aaudio_bridge.c:549-571` | Within the limits the guest gets what it asked for; defaults stand in only for what it left out |
| `Resampler.CountInRange` | `source/aaudio_bridge.c:232-236` | The clamps on the frame count are never taken |
| `Resampler.SourceInRange` | `source/aaudio_bridge.c:241-242` | The clamp on the source index is never taken |
| `Resampler.SampleInRange` | `source/aaudio_bridge.c:199-209` | Every sample read lies in the callback's buffer |
| `Resampler.SourcesInOrder` | `source/aaudio_bridge.c:241-242` | Output frames take their source frames in order |
| `Resampler.FilledPlays` | `source/aaudio_bridge.c:197-250` | Every output frame is the last input frame that starts no later than it, the greatest sf with sf * 48000 <= of * rate; its first sample to the left, its second, if there is one, to the right |
| `Resampler.Stream.Convert` | `source/aaudio_bridge.c:227-256` | One conversion plays the input frame of its time in every output frame, left and right, stays inside the capacity of line 627, and keeps: frames out times input rate plus remainder equals callbacks times frames times output rate |
| `Resampler.Stream.Reset` | `source/aaudio_bridge.c:348` | A reset starts the accounting anew |
| `Resampler.ExactCount` | `source/aaudio_bridge.c:230-234` | After any number of callbacks the total is the exact quotient, rounded down |

## Left out

- Host primitives (svc calls, audout, libnx mutexes and condition variables, thread exit): abstract steps with contracts; fairness and liveness of blocking waits are not modelled.
- Addresses: heap and arena are assumed to lie below 2^48, so that no address sum wraps; 64-bit masks are natural numbers with bitwise operations defined digit by digit.
- The mapping table's fixed number of records is kept, but mmap hints, protection bits and the trace log are not.
- `PthreadMutex` covers the recursive and the error-checking kind; the normal kind, static-type detection, destroying a mutex and reusing its slot are not modelled.
- Absolute timeouts, clock mapping, affinity and the diagnostics snapshots, which use copied handles after the lock is dropped: no hard property.
- Thread stacks, names and thread-specific destructors: not part of the record's life cycle.
- ThreadLifecycle.LastReadIsSafeUnlessDetached: its "if" and "only if" are about runs in which the id of a thread is used by others only after its create has returned, as a caller that waits for the id does; the thread itself may use its own id at any time, and the run SELF_DETACHED shows what a detach of itself can do.  A join or detach by another thread that reads the id from memory while create is still running is outside the model.
- A record's memory address may be reused after it is freed; a pipe in `FakeFd` is always a fresh object, while `PipeProtocol` also covers a reused address.
- `fakefd_fcntl` is present only through the events that set flags and through dup; locks and unknown commands only return constants.
- Descriptor flags and status flags are sets of bit numbers.
- FakeFd.FakeFds.Dup2: covers a dup2 with no other thread between its sections; with others in between, the sections are `Close` and `CloneSection`, each proved on any table, and separate events of `PipeProtocol`.
- Resampler: conversion of float samples to 16 bits and the peak meters; samples are opaque.
- Relr.ProcessRelr: the bounds of the module image are a precondition, as the code checks none.
- Relr.PackingRoundTrip: the canonical packing is of aligned addresses, as RELR requires of a linker.
- Iovec: the region query behind the readability test is a map from addresses to booleans; memcpy is a byte loop in ascending order.
- Glob: characters are compared as code points and folded as in the C locale; a NULL pattern or string is not modelled.
- Textures: source and destination of the transcoder do not overlap; bytes of an input block are 8-bit vectors, pixels and output bytes are numbers.
- JNI, NDK, media and locale stubs, the installer, crash logging, instruction patches and graphics reclaim code: plumbing without a hard property.
