# A model of Berberis' runtime bookkeeping

Berberis runs guest binaries (RISC-V 64, ARM64) by translating them to host code. The parts of it that are hard
to get right are not the translators but the bookkeeping around them: which guest code has a current translation,
which signals are still owed to the guest, who holds a memory reservation, which pages are executable, what a
loaded file looks like in memory. This project models those parts in Dafny and proves what they are for, over every
input, every run and every interleaving of their steps.

`dafny verify dfyconfig.toml` checks the whole project.

## What is modelled

- **Translation cache.** `TranslationCacheSpec` has each mutex-protected method as one function on a cache value.
  `TranslationCacheSafety` lets any number of threads take these steps in any order, remembers every lock and every
  invalidation, and proves that no stale code is ever visible, that locks are exact, and that no CHECK fails.
  `TranslationCache` is the program's own form, with the erasing loops and the windowed scan, proved equal to the
  specification.
- **Pending signals.** `PendingSignals` is one thread as a stack of activations, each stopped before its next atomic
  access, which a host signal can interrupt anywhere. `DrainOrder` shows in which order it delivers. `SignalQueueSpec` and `SignalQueue` are the lock-free queue, as
  lists refined to a stable priority queue and as linked nodes.
- **Guest code regions.** `CodeRegionSpec` gives blocks an address-level successor relation; `CodeRegion` is the class
  that splits, prunes and links blocks.
- **Exclusive loads and stores.** `Reservation` is the owner protocol in atomic steps of any number of cpus;
  `GuestReservation` puts the guest's load, store and clear on top of it; `ReservationTable` is the table itself.
- **Executable pages.** `Shadow` is the bitmap with its scans, over the translation cache; `Coherence` interleaves
  shadow updates with translators; `SysMman`, `GuestMappings`, `ProcMaps` and `ExecutableSegments` are its clients.
- **ELF.** `SymbolTable` looks names up through both hash tables, `HashSection` finds the parts of one in memory;
  `Loader` reserves address space and loads segments.
- **Signal actions and environments.** `SignalAction` and `ExecEnvironment`.

A method of the program that changes state is a method here, with an `ensures` that equates the new state with a
function of the old one; what the program promises is then proved about that function. I/O and the kernel are
parameters: what `mmap`, `mremap` and `sigaction` answer is an argument, constrained by what the kernel guarantees.

## Where the code does not do what it says

- `InvalidateGuestRange` is documented to return true when translated code was invalidated. It also returns true for
  entries that only count interpretations. `ReplyAsDocumentedExactly` says exactly when the comment holds,
  `ReplyNotAsDocumented` gives a case where it does not.
- `ClearExecutable` clears whole pages in the shadow but invalidates from the caller's own address. From an unaligned
  start, as for the text segment of an unloaded library (guest_loader/executable_segments.h:75), a translation that ends
  on the first cleared page before that address survives. `ClearCoherentExactly` says exactly when for a clear on its own
  and `ClearEndCoherentExactly` for one with anything interleaved; `UnalignedClearExample` is the smallest case,
  `UnalignedRunExample` a complete run.
- A fork waits for the cache's mutex only, so it can fall between another thread's clearing of bits and its
  invalidation. That thread is gone in the child, where translations on the cleared pages stay published, and a second
  clear of the same pages does not invalidate them (`ClearAgainDoesNothing`). `ForkCoherentExactly` says exactly when the
  child is coherent, `ForkLosesClear` breaks it from any state with a translation, `ForkExample` is a complete run.
- `SetExecutable` never invalidates, so the stub published for a page that was not executable stays when the page
  becomes executable (`StubsStayRightExactly`, `OutdatedStubExample`), and keeps its address from being translated until
  its own range is invalidated (`StubLastsExactly`).
- `ProcessAndDisablePendingSignals` can disable pending signals with signals still queued: when a drain is suspended in
  a guest handler that makes a system call. They are not lost, the suspended drain delivers them.
  `DisablesDrainedExactly` proves what the queue is at every disable, `AnythingMayBeLeft` that any list can be left.
- `HandleFaultForRecovery` enables pending signals and does not disable them again. Found enabled, it is a step like any
  other of the runs below; inside a scope that has disabled them, the CHECK at the end of the scope then fails exactly if
  the scope is the one that disabled them (`FaultInScopeFailsExactly`).
- `MunmapForGuest` and `MprotectForGuest` update the shadow before they ask the host and leave it so when the host
  refuses, wholly or from the first hole on. `AgreesExactly` says which failures harm, `AgreesByRequest` which requests;
  `FailedProtectExample` makes an unmapped page executable.
- An exclusive store sees plain stores by value only, so a plain store that has been undone does not make it fail, although
  section 8.2 of the RISC-V unprivileged specification (version 20191213) asks for that (`PlainStoresSeenByValueOnly`,
  `UndoneStoreExample`).
- An exclusive store pairs with its cpu's last exclusive load, except in the region at address 0: the cleared
  reservation address is the null address, so a store there passes with no load of its own (`StoreStartsExactly`,
  `NullRegionExample`).
- A sigaction that is saved and set back, with anything in between, is restored, except when the signal was claimed for
  an address that is a wrapped host function by the time it is set back (`SaveRestore`, `RestoreLosesClaim`).
- A region whose last block has no code fails a CHECK in `CollectReachableBranchTargets` exactly if control gets from its
  first block to its last (`EmptyEndExactly`, `EmptyEndExample`).
- The number of words of a bloom filter is checked to be a power of two, but zero passes and becomes a mask of all ones
  (`ReadGnuHash`).
- The loader refuses segments that are both writable and executable, but one without file contents passes
  (`WritableAndExecutable`).
- An environment round-trips through mangling exactly when no variable already looks mangled (`RoundTripExactly`,
  `PremangledExample`).
- `Guest_SIG_ERR` is `~0U`, 32 bits, while the host's `SIG_ERR` is a pointer-wide -1; the model keeps both values.

## Model

| member | source | states |
|---|---|---|
| TranslationCacheSafety.CacheSafety | runtime_primitives/translation_cache.cc:38-338 | Over every run of locks, publications, invalidations and forks from the empty cache: no CHECK fails; visible code is what its producer handed over (size, kind, code, host size), under a lock taken after the last invalidation of the guest range that producer gave; and unfinished entries correspond one to one with outstanding locks |
| TranslationCacheSafety.StepKeepsInv | runtime_primitives/translation_cache.cc:62-338 | Every allowed operation succeeds and keeps the invariant that ties slots, entries, the translating set, the maximal size, tokens and history together |
| TranslationCacheSafety.RunKeepsInv | runtime_primitives/translation_cache.cc:62-338 | The invariant holds after any legal sequence of operations |
| TranslationCacheSafety.GrantKeepsInv | runtime_primitives/translation_cache.cc:112-118 | Handing out a lock keeps every other token exclusive and fresh |
| TranslationCacheSafety.ReturnKeepsInv | runtime_primitives/translation_cache.cc:120-205 | Giving a lock back, with or without publishing, leaves the entry finished and nothing stale |
| TranslationCacheSafety.PublishKeepsInv | runtime_primitives/translation_cache.cc:120-160 | Publishing a translation with a held token succeeds and keeps the invariant |
| TranslationCacheSafety.PublishWrapperKeepsInv | runtime_primitives/translation_cache.cc:177-205 | Publishing a wrapper with a held token succeeds and keeps the invariant |
| TranslationCacheSafety.InvalidateKeepsInv | runtime_primitives/translation_cache.cc:285-338 | An invalidation never erases a held entry, overtakes every overlapping lock, and keeps the invariant |
| TranslationCacheSafety.ForkKeepsInv | runtime_primitives/translation_cache.cc:42-60 | In the child no entry is locked any more and the invariant holds without any token |
| TranslationCacheSafety.AddForTranslationEffect | runtime_primitives/translation_cache.cc:62-91 | The call always succeeds and changes only its own pc; a lock is given only on an entry nobody works on, which it leaves locked, and a refusal publishes nothing |
| TranslationCacheSafety.InvalidateEffect | runtime_primitives/translation_cache.cc:285-338 | For each pc: dropped, marked invalidating or kept, by whether it overlaps the range and what its slot holds |
| TranslationCacheSafety.AbandonEffect | runtime_primitives/translation_cache.cc:273-283 | Translations in progress become invalidating and lose their host size, and nothing else changes |
| TranslationCacheSafety.ForkEffect | runtime_primitives/translation_cache.cc:42-60 | Unfinished entries are gone and untranslated, finished ones are as they were |
| TranslationCacheSafety.InvalidateReplyExact | runtime_primitives/translation_cache.cc:285-338 | The reply is true exactly when the range had published code or a wrapper in the making, or an entry that is only counted; so false means no slot in the range held published code when the call began |
| TranslationCacheSafety.ReplyAsDocumentedExactly | runtime_primitives/include/berberis/runtime_primitives/translation_cache.h:169-176 | The documented meaning of the reply holds if and only if entries that are only counted do not stand alone in the range |
| TranslationCacheSafety.ReplyNotAsDocumented | runtime_primitives/include/berberis/runtime_primitives/translation_cache.h:169-176 | One interpreted pc makes the reply true with nothing translated |
| TranslationCacheSafety.PublishedUnlessOvertaken | runtime_primitives/translation_cache.cc:120-205 | A producer's result goes live, with exactly the guest size, kind, code and host size it was given, if no invalidation has overtaken its lock; otherwise the pc is left without an entry. Any invalidation overtakes a translation, an overlapping one a wrapper |
| TranslationCacheSafety.LockedAfterThreshold | runtime_primitives/include/berberis/runtime_primitives/translation_cache.h:131-136 | A new pc is refused exactly `threshold` times, as an interpreted entry of one byte that counts them, and locked the next time |
| TranslationCacheSafety.LockGrantedExactly | runtime_primitives/translation_cache.cc:62-175 | In every reachable state a lock is granted, and the slot marked, exactly: to translate, for a pc without code interpreted often enough; to gear up, for published code of the lite kind; to wrap, for a pc without an entry. Otherwise no lock changes hands |
| TranslationCacheImpl.TranslationCache.AddUnsafe | runtime_primitives/translation_cache.cc:215-230 | Adds an entry of size one, or finds the one that is there |
| TranslationCacheImpl.TranslationCache.LockForTranslationUnsafe | runtime_primitives/translation_cache.cc:112-118 | Slot, kind and translating set change together, as the specification says |
| TranslationCacheImpl.TranslationCache.AddAndLockForTranslation | runtime_primitives/translation_cache.cc:62-91 | Result and new state are those of the specification, which never fails its CHECKs |
| TranslationCacheImpl.TranslationCache.LockForGearUpTranslation | runtime_primitives/translation_cache.cc:93-110 | Locks exactly lite-translated entries, as the specification says |
| TranslationCacheImpl.TranslationCache.SetTranslatedAndUnlock | runtime_primitives/translation_cache.cc:120-160 | Publishes, or drops an entry that was invalidated meanwhile, and raises the maximal size |
| TranslationCacheImpl.TranslationCache.AddAndLockForWrapping | runtime_primitives/translation_cache.cc:162-175 | A lock is given exactly for a pc without an entry |
| TranslationCacheImpl.TranslationCache.SetWrappedAndUnlock | runtime_primitives/translation_cache.cc:177-205 | Publishes the wrapper, or drops an entry that was invalidated meanwhile |
| TranslationCacheImpl.TranslationCache.InvalidateEntriesBeingTranslatedUnsafe | runtime_primitives/translation_cache.cc:273-283 | The loop over the translating set is the simultaneous change of the specification |
| TranslationCacheImpl.TranslationCache.InvalidateGuestRange | runtime_primitives/translation_cache.cc:285-338 | New state and reply are those of the specification, which looks at every entry |
| TranslationCacheImpl.TranslationCache.ScanRange | runtime_primitives/translation_cache.cc:296-337 | Starting at the window's lower end and stopping at the first pc past the range treats exactly the overlapping entries, given sizes between one and the maximum |
| TranslationCacheImpl.TranslationCache.FinishForkInChild | runtime_primitives/translation_cache.cc:42-60 | The erasing loop leaves the state of the specification |
| Coherence.ShadowAndCacheCoherent | guest_os_primitives/guest_map_shadow.cc:199-218 | Over every interleaving of translators, wrappers, invalidations, forks and shadow updates from any start: when no clear is in progress, every published translation lies on executable pages if and only if none touches a lost page, one that a fork cut off from its invalidation or that a clear from inside it invalidated in part |
| Coherence.CoherentBetweenClears | guest_os_primitives/guest_map_shadow.cc:199-218 | Runs whose forks come between clears and whose clears start on page boundaries lose no page, so they are coherent whenever no clear is in progress |
| Coherence.ForkCoherentExactly | guest_os_primitives/guest_thread_clone.cc:140-170 | In every reachable state, the child of a fork is coherent if and only if no published translation touches a page that the clear in progress has already cleared, or that was lost before |
| Coherence.ForkLosesClear | guest_os_primitives/guest_thread_clone.cc:140-170 | From any idle state, a fork just after the first page of a clear leaves every translation on that page stale in the child |
| Coherence.ClearAgainDoesNothing | guest_os_primitives/guest_map_shadow.cc:199-218 | Clearing pages that are clear already invalidates nothing, so it does not make up for a clear a fork cut off |
| Coherence.ForkExample | runtime_primitives/translation_cache.cc:38-60 | A run from the empty world to an incoherent child |
| Coherence.NextKeepsInv | runtime/riscv64/translator_x86_64.cc:156-229 | A translation installed after its pages were seen executable under the lock, a fork anywhere, a clear from any start, or any other step, keeps every visible or coming translation covered by executable pages, by an invalidation to come or by lost pages |
| Coherence.ClearEndKeeps | guest_os_primitives/guest_map_shadow.cc:199-218 | From any start: skipping the invalidation when no bit changed is safe, and otherwise what outlives it touches no cleared page but a first page that was invalidated in part |
| Coherence.ClearCoherentExactly | guest_os_primitives/guest_map_shadow.cc:199-218 | A clear on its own keeps shadow and cache coherent if and only if no published translation ends between the page boundary below the caller's start and that start |
| Coherence.ClearEndCoherentExactly | guest_os_primitives/guest_map_shadow.cc:199-218 | With anything interleaved between its steps, and nothing lost before, a clear ends coherent if and only if its first page has become executable again or no published translation ends on it before the start |
| Coherence.UnalignedClearExample | guest_os_primitives/guest_map_shadow.cc:199-218 | A translated instruction at address 0 survives a clear of page 0 that starts at the next instruction |
| Coherence.UnalignedRunExample | guest_loader/executable_segments.h:70-78 | A run from the empty world to a stale translation, by a clear that starts inside a page |
| Coherence.TranslateReached | runtime/riscv64/translator_x86_64.cc:156-229 | The state of these examples is reached by making page 0 executable, locking, looking and publishing |
| Coherence.SurvivorStaysCoherent | guest_os_primitives/guest_map_shadow.cc:199-218 | Whatever a clear leaves published lies on pages that are still executable, when no translation ends before its start |
| Coherence.StubsStayRightExactly | guest_os_primitives/guest_map_shadow.cc:182-197 | The converse: a step keeps every published no-exec stub on a page that is not executable, if and only if it neither sets the one page that some stub still misses nor publishes a stub whose pages have all become executable |
| Coherence.StubBlocksTranslation | runtime_primitives/translation_cache.cc:62-110 | While a stub is published no lock for translating its address is given, whatever the threshold |
| Coherence.StubStaysExactly | runtime_primitives/translation_cache.cc:285-338 | A published stub is still there after a step if and only if the step is not an invalidation, direct or at the end of a clear, whose range overlaps its entry |
| Coherence.StubLastsExactly | runtime_primitives/translation_cache.cc:62-338 | Over every run: the stub stays published and nobody holds a lock on its address in any state, if and only if no step invalidates its own range |
| Coherence.OutdatedStubExample | runtime/riscv64/translator_x86_64.cc:171-176 | A run that publishes a stub and then makes its page executable |
| SignalQueueSpec.QueueRefinesStablePriority | runtime_primitives/signal_queue.cc:31-70 | Any run of enqueues and dequeues, with enqueues between the steps of a dequeue, gives the results of a stable priority queue over arrival lines |
| SignalQueueSpec.EveryPickStable | runtime_primitives/signal_queue.cc:39-70 | In every reachable state a pick is the smallest signal number among the collected nodes and the earliest arrival among equals |
| SignalQueueSpec.PickIsPriorityThenArrival | runtime_primitives/signal_queue.cc:39-70 | One pick from lines in arrival order is the minimum by number then arrival, removes just that one and keeps the order |
| SignalQueueSpec.BestIsFirstArrived | runtime_primitives/signal_queue.cc:57-64 | The last minimum of the newest-first list is the first minimum in arrival order |
| SignalQueueSpec.RunConserves | runtime_primitives/signal_queue.cc:31-70 | What has come in is what has gone out and what is still there, as multisets |
| SignalQueueSpec.RunKeepsArrivalOrder | runtime_primitives/signal_queue.cc:31-70 | Both lines stay in arrival order throughout a run |
| SignalQueueImpl.SignalQueue.TryPush | runtime_primitives/signal_queue.cc:31-37 | A compare-and-swap that does not fail spuriously succeeds exactly while the head is the one loaded, and then pushes exactly one node; a failed one changes nothing |
| SignalQueueImpl.SignalQueue.EnqueueSignal | runtime_primitives/signal_queue.cc:31-37 | With anything others do between each load and its compare-and-swap, and any spurious failures, the loop does what its attempts amount to |
| SignalQueueImpl.UndisturbedEnqueue | runtime_primitives/signal_queue.cc:31-37 | Left alone, the first attempt pushes the node |
| SignalQueueImpl.EnqueueLosesNothing | runtime_primitives/signal_queue.cc:31-37 | However often it is retried, an enqueue pushes its node once, in front of everything others have left there |
| SignalQueueImpl.SignalQueue.PutInFront | runtime_primitives/signal_queue.cc:43-51 | The taken list is linked in front of the consumed one without losing or sharing a node |
| SignalQueueImpl.SignalQueue.RemoveBest | runtime_primitives/signal_queue.cc:53-70 | Returns the node the specification picks and unlinks exactly it |
| SignalQueueImpl.SignalQueue.DequeueSignalUnsafe | runtime_primitives/signal_queue.cc:39-70 | Picks from produced followed by consumed, and leaves the others in order |
| PendingSignals.AllDeliveredWhenBack | guest_os_primitives/guest_signal_handling.cc:182-199 | Over every run with any nesting of handlers no CHECK fails, and back in host code every signal raised has been delivered, as often as it was raised |
| PendingSignals.StepKeepsInv | guest_os_primitives/guest_signal_handling.cc:401-430 | Every atomic step of every activation succeeds, keeps the status in step with the stack and conserves every signal |
| PendingSignals.RunKeepsInv | guest_os_primitives/guest_signal_handling.cc:401-573 | The invariant holds after any legal run |
| PendingSignals.NeverTwice | guest_os_primitives/guest_signal_handling.cc:524-573 | A signal raised once is delivered at most once, and not both delivered and still queued |
| PendingSignals.QueuedMeansPresent | guest_os_primitives/guest_signal_handling.cc:401-430 | In every reachable state with no activation between enqueueing and marking or inside a drain: a produced signal means status Present, even with a drain suspended in a guest handler, and only then can anything else be queued |
| PendingSignals.DequeueNotReentered | guest_os_primitives/guest_signal_handling.cc:524-532 | While a drain runs, no activation below it is inside a dequeue or between enqueueing and marking |
| PendingSignals.DisablesDrainedExactly | guest_os_primitives/guest_signal_handling.cc:498-512 | Over every run, whenever pending signals are about to be disabled the produced list is empty, and something is left over from a dequeue only while a drain is suspended in a guest handler |
| PendingSignals.PollReturnsDrained | guest_os_primitives/guest_signal_handling.cc:486-496 | Over every run, a poll comes back exactly when no signal is present, and then nothing is produced and something is left over only while a drain is suspended; after a kick it drains first |
| PendingSignals.AnythingMayBeLeft | guest_os_primitives/guest_signal_handling.cc:498-512 | For every list of signals there is a run from the attached thread that disables with exactly that list left in the queue, so nothing weaker can be asked of what is left |
| PendingSignals.HandlerLeavesAsFound | guest_os_primitives/guest_signal_handling.cc:182-199 | A handler that interrupts anywhere, and is interrupted anywhere, comes back to exactly the activations it found, with pending signals disabled if and only if it found them so |
| PendingSignals.FaultInScopeFailsExactly | guest_os_primitives/include/berberis/guest_os_primitives/scoped_pending_signals.h:47-62 | After the recovery handler has run inside a scope with pending signals disabled, the CHECK that ends the scope fails if and only if the scope is the one that disabled them; without it the scope ends well |
| PendingSignals.FaultIsHandlerWhenEnabled | guest_os_primitives/guest_signal_handling.cc:613-653 | Found enabled, it does what the signal handler does |
| DrainOrder.DeliversInPriorityOrder | guest_os_primitives/guest_signal_handling.cc:524-573 | Over every run with any nesting of handlers and drains, the signals delivered are, in this order, what a stable priority queue gives for the same enqueues and dequeues, and the lists hold what it still holds |
| DrainOrder.PicksSmallestThenOldest | runtime_primitives/signal_queue.cc:57-70 | Over every run, a drain picks a collected signal of the smallest number, the oldest of those, delivers it and enters the guest handler next; the others stay as they were |
| DrainOrder.RunFollows | guest_os_primitives/guest_signal_handling.cc:524-533 | The queue accesses of a run, taken out of their activations, are a run of the lock-free queue with the same deliveries |
| CodeRegion.GuestCodeRegion.ResolveEdges | runtime_primitives/guest_code_region.cc:42-52 | Succeeds exactly for non-empty regions of disjoint blocks, unless the last block has no code and control gets to it from the first. Then execution from the lowest block is the same before and after, no branch target is strictly inside a block, the blocks are exactly the reachable ones and in-edges the converse of out-edges |
| CodeRegionSpec.CodeAtEndPasses | runtime_primitives/guest_code_region.cc:76-77 | A region whose last block has code passes the CHECK on addresses |
| CodeRegionSpec.EmptyEndExactly | runtime_primitives/guest_code_region.cc:54-136 | The search over the split blocks gets to a last block without code if and only if the recorded region ends in one and control enters it, from block to block as recorded |
| CodeRegionSpec.EmptyEndExample | runtime_primitives/guest_code_region.cc:72-77 | A block that branches to an empty last block fails |
| CodeRegion.GuestCodeRegion.NewBasicBlock | runtime_primitives/guest_code_region.cc:32-40 | Adds the block, whose start must be new, and its targets, and keeps the region valid |
| CodeRegion.GuestCodeRegion.SplitBasicBlocks | runtime_primitives/guest_code_region.cc:114-136 | Afterwards no target is strictly inside a block, and only block boundaries have changed |
| CodeRegion.GuestCodeRegion.CollectReachableBranchTargets | runtime_primitives/guest_code_region.cc:54-90 | The worklist ends, by unvisited blocks and then length: with a failed CHECK exactly if it gets to a last block without code, and otherwise with exactly the out-edges of the reachable blocks |
| CodeRegion.GuestCodeRegion.RemoveUnreachableBlocks | runtime_primitives/guest_code_region.cc:92-112 | Keeps precisely the blocks reachable from the first, and the branch targets become the union of their out-edges |
| CodeRegion.GuestCodeRegion.ResolveInEdges | runtime_primitives/guest_code_region.cc:138-147 | In-edges become the converse of out-edges, counted with multiplicity, and nothing else changes |
| CodeRegion.GuestCodeRegion.ValidateRegionBeforeFinalize | runtime_primitives/guest_code_region.cc:149-156 | The check over neighbours accepts exactly disjoint regions |
| CodeRegionSpec.SplitKeepsSteps | runtime_primitives/guest_code_region.cc:114-136 | Splitting a block leaves the address-level successor relation as it was |
| CodeRegionSpec.SplitKeepsShape | runtime_primitives/guest_code_region.cc:114-136 | Splitting keeps blocks disjoint and non-empty, moves no control and makes the target a boundary |
| CodeRegionSpec.FloorDecides | runtime_primitives/guest_code_region.cc:116-126 | Only the last block starting at or before an address can contain it |
| CodeRegionSpec.ExecutedInReachable | runtime_primitives/guest_code_region.cc:54-112 | Every executed address lies in a block reachable by out-edges |
| CodeRegionSpec.PruneKeepsExecution | runtime_primitives/guest_code_region.cc:92-112 | Removing unreachable blocks keeps what is executed from the first block, and from there the same steps |
| CodeRegionSpec.ClosedHoldsReachable | runtime_primitives/guest_code_region.cc:54-90 | A visited set closed under out-edges holds every reachable block |
| CodeRegionSpec.ReachableByTargets | runtime_primitives/guest_code_region.cc:92-112 | A block is reachable exactly if it is the first or a collected target |
| Reservation.StoreConditionalSound | runtime_primitives/memory_region_reservation.cc:90-171 | In every interleaving, when an exchange replies true its cpu's last load had reserved the slot, and nobody but that cpu has reserved, locked or written it since; one cpu at a time is between lock and unlock of a slot |
| Reservation.ExchangeExactly | runtime_primitives/memory_region_reservation.cc:150-171 | Over every interleaving, an exchange replies true if and only if the reservation is unbroken when it takes its lock and memory holds the expected value when it writes |
| Reservation.SecondExchangeFails | runtime_primitives/memory_region_reservation.cc:150-171 | After any attempt at an exchange, whether it took the lock or not, another one on the slot fails unless a load has reserved it anew |
| Reservation.StepKeepsInv | runtime_primitives/memory_region_reservation.cc:103-171 | Every atomic step of every cpu keeps owners, lock holders and history consistent |
| Reservation.RunKeepsInv | runtime_primitives/memory_region_reservation.cc:103-171 | The invariant holds after any run |
| Reservation.ExchangeExact | runtime_primitives/memory_region_reservation.cc:150-171 | Undisturbed, an exchange succeeds if and only if the cpu owns the slot and memory holds the expected value |
| Reservation.LoadThenExchange | runtime_primitives/memory_region_reservation.cc:131-171 | An undisturbed load and exchange of the loaded value succeeds unless the slot was locked |
| Reservation.PlainStoresSeenByValueOnly | runtime_primitives/memory_region_reservation.cc:131-171 | Over every interleaving and any number of plain stores since the load, an exchange of the loaded value that has its lock writes if and only if the last of them left that value; so it fails after plain stores exactly unless they have undone one another |
| Reservation.UndoneStoreExample | runtime_primitives/memory_region_reservation.cc:131-171 | A load, two plain stores that cancel and an exchange that succeeds |
| Reservation.SlotsDiffer | runtime_primitives/memory_region_reservation.cc:90-95 | Two regions share a slot of the owner table only if they are at least a whole table apart |
| GuestReservation.StoreStartsExactly | runtime_primitives/include/berberis/runtime_primitives/memory_region_reservation.h:57-66 | In every interleaving, a guest store goes on to the owner table if and only if its cpu's last load of any address was of the same region with no store or clear since, or the region is the null one and there is no such load; otherwise it fails at once and changes nothing |
| GuestReservation.StorePairsWithLastLoad | runtime_primitives/include/berberis/runtime_primitives/memory_region_reservation.h:34-75 | In every interleaving, a guest store that holds its lock, outside the null region, took it on the reservation made by its cpu's last load of any address, and writes if and only if memory still holds what that load read |
| GuestReservation.StepKeepsInv | runtime_primitives/include/berberis/runtime_primitives/memory_region_reservation.h:34-75 | Every step of every cpu keeps the remembered address and value those of the last load, until a store or clear |
| GuestReservation.Region | runtime_primitives/include/berberis/runtime_primitives/memory_region_reservation.h:46-46 | The region of an address is aligned and holds it |
| GuestReservation.NullRegionExample | runtime_primitives/include/berberis/runtime_primitives/memory_region_reservation.h:34-66 | A store to the null region succeeds after another load and a store have come since the load of it |
| ReservationTable.MemoryRegionReservation.SetOwner | runtime_primitives/memory_region_reservation.cc:103-112 | Takes the slot over unless it is locked, and no other slot changes |
| ReservationTable.MemoryRegionReservation.TryLock | runtime_primitives/memory_region_reservation.cc:114-124 | Locks exactly a slot this cpu owns |
| ReservationTable.MemoryRegionReservation.ReservationLoad | runtime_primitives/memory_region_reservation.cc:131-148 | The table follows the protocol's undisturbed load |
| ReservationTable.MemoryRegionReservation.ReservationExchange | runtime_primitives/memory_region_reservation.cc:150-171 | Table, memory and result follow the protocol's undisturbed exchange |
| ReservationTable.MemoryRegionReservation.Load | runtime_primitives/include/berberis/runtime_primitives/memory_region_reservation.h:41-53 | The cpu remembers the region and its value, and the table follows the protocol's undisturbed load |
| ReservationTable.MemoryRegionReservation.Store | runtime_primitives/include/berberis/runtime_primitives/memory_region_reservation.h:55-75 | Fails without a change for another region than the remembered one; otherwise follows the protocol's undisturbed exchange of the remembered value; the address is cleared either way |
| ReservationTable.MemoryRegionReservation.Clear | runtime_primitives/include/berberis/runtime_primitives/memory_region_reservation.h:34-39 | Gives back the remembered address and clears it |
| Shadow.GuestMapShadow.SetExecAddr | guest_os_primitives/guest_map_shadow.cc:112-127 | The byte update changes one page's membership, and says whether it did |
| Shadow.ByteChange | guest_os_primitives/guest_map_shadow.cc:112-127 | A change of one bit of one byte adds or removes exactly one page of the set |
| Shadow.GuestMapShadow.SetExecutable | guest_os_primitives/guest_map_shadow.cc:182-197 | Adds exactly the pages the range touches |
| Shadow.GuestMapShadow.ClearExecutable | guest_os_primitives/guest_map_shadow.cc:199-218 | Removes exactly the pages the range touches and invalidates the cache if one of them was executable |
| Shadow.GuestMapShadow.GetExecutableRegionSize | guest_os_primitives/guest_map_shadow.cc:156-168 | The region is positive, ends on a page boundary, has one flag throughout, and ends where the flag changes or the scan ends |
| Shadow.GuestMapShadow.GetExecutable | guest_os_primitives/guest_map_shadow.cc:170-176 | The common bit of the touched pages, or mixed |
| Shadow.GuestMapShadow.IsExecutable | guest_os_primitives/guest_map_shadow.cc:178-180 | True exactly if every touched page is executable |
| Shadow.GuestMapShadow.CopyExecutable | guest_os_primitives/guest_map_shadow.cc:129-145 | The target gets the bit of a wholly executable source and is cleared otherwise |
| Shadow.GuestMapShadow.RemapExecutable | guest_os_primitives/guest_map_shadow.cc:220-250 | In place: the added or removed tail; moved: the new region copied and the old one cleared |
| Pages.PagesTouched | guest_os_primitives/guest_map_shadow.cc:182-197 | Rounding outwards keeps exactly the pages that share a byte with the range |
| SysMman.MremapForGuest | kernel_api/sys_mman_emulation.cc:206-233 | Refused exactly for a region of differing pages where that matters; on success every page of the shadow follows its mapping, and otherwise shadow and cache are unchanged |
| SysMman.MayRemapExactly | kernel_api/sys_mman_emulation.cc:207-228 | A call is refused exactly if some pages of the part that matters are executable and some are not: the old size when growing, the new size when shrinking to a fixed place, nothing otherwise |
| SysMman.MremapFollowsPages | guest_os_primitives/guest_map_shadow.cc:220-250 | Each kept page has its source page's bit, each added page the old region's common bit, vacated pages are cleared and all others unchanged |
| GuestMappings.ShadowFollowsMappings | kernel_api/sys_mman_emulation.cc:69-233 | Over any run of guest mmap, munmap, mprotect and mremap, the shadow agrees with the guest's mappings before and after every call if and only if no call is a harmful failure |
| GuestMappings.AgreesExactly | kernel_api/sys_mman_emulation.cc:69-233 | A call keeps the shadow in agreement with the guest's mappings if and only if it is not a failed unmap or protect that left some page alone which did not have the requested bit |
| GuestMappings.AgreesByRequest | kernel_api/sys_mman_emulation.cc:185-204 | From the request alone: a munmap keeps agreement if and only if it is aligned and not empty or touches no executable page; an mprotect, if and only if it is guarded or every page from the first hole on, or of the whole range if that is unaligned, has the requested bit already |
| GuestMappings.MremapAgrees | kernel_api/sys_mman_emulation.cc:206-233 | Remapping moves the permission with the page, as the kernel moves the mapping |
| GuestMappings.FailedProtectExample | kernel_api/sys_mman_emulation.cc:190-204 | A refused mprotect of an unmapped page leaves it executable in the shadow |
| GuestMappings.ToHostProt | kernel_api/sys_mman_emulation.cc:42-48 | The host never gets execute permission and can read what the guest executes |
| GuestMappings.UpdateGuestProt | kernel_api/sys_mman_emulation.cc:51-59 | Sets or clears exactly the touched pages |
| GuestMappings.MmapForGuest | kernel_api/sys_mman_emulation.cc:69-73 | The shadow changes only for a granted mapping |
| GuestMappings.MunmapForGuest | kernel_api/sys_mman_emulation.cc:185-188 | The shadow is cleared whatever the host answers |
| GuestMappings.MprotectForGuest | kernel_api/sys_mman_emulation.cc:190-204 | A guarded range is refused without any change; otherwise the shadow follows the request whatever the host answers |
| ProcMaps.SplitLine | kernel_api/open_emulation.cc:156-186 | The chunks of a page-aligned line are contiguous, cover it once, alternate in the flag and match the shadow on every page; an unaligned line that is split ends at the next page boundary |
| ProcMaps.SplitUnique | kernel_api/open_emulation.cc:156-186 | No other list of chunks has these properties |
| ExecutableSegments.LinkerExecutableSegments.Sync | guest_loader/executable_segments.h:36-85 | A page is executable afterwards exactly if it shares a byte with an executable segment, at its load base, of a newly loaded object, or it was executable and no vanished object's segment covers it; known objects keep their snapshot |
| ExecutableSegments.LinkerExecutableSegments.Collect | guest_loader/executable_segments.h:37-69 | The new object list, and ranges that cover exactly the pages that share a byte with an executable segment of a newly loaded object |
| ExecutableSegments.CoversExactly | guest_loader/executable_segments.h:58-66 | The ranges of an object cover a page if and only if some PT_LOAD header with the X flag and a size shares a byte with it, at the load base plus its address |
| ExecutableSegments.RemembersExactly | guest_loader/executable_segments.h:39-69 | An object is remembered if and only if some link is known as it, or is loadable and has its segments now |
| ExecutableSegments.PassedOverExactly | guest_loader/executable_segments.h:50-57 | An unknown link is passed over exactly if it has no address, is the vdso, or shows no AArch64 ELF header with 1 to 128 program headers of the usual size; then it makes no page executable |
| ExecutableSegments.ListedPresent | guest_loader/executable_segments.h:70-78 | Looking an old object up among the current ones is looking its link and base up in the link map |
| ExecutableSegments.SnapshotAtFirstLoad | guest_loader/executable_segments.h:43-48 | Over any run, a remembered object has the segments read when it was first seen, and every later call still saw it |
| ExecutableSegments.LastTouchDecides | guest_loader/executable_segments.h:36-85 | Over any run of linker updates and guest protection changes, a page keeps its flag while nothing touches it |
| ExecutableSegments.LoadedStaysExecutable | guest_loader/executable_segments.h:43-85 | A remembered object's executable pages stay executable until an unload or protection change touches them, whatever its headers have become |
| SymbolTable.FindGnuSymbol | tiny_loader/tiny_symbol_table.cc:116-151 | Any answer is the load bias plus the value of a defined global or weak symbol of that name; for a table a linker has filled it is that of linear search's first match, or null if there is none |
| SymbolTable.WalkChain | tiny_loader/tiny_symbol_table.cc:136-150 | The chain walk stays in the table and stops at the first match |
| SymbolTable.WalkLeadsTo | tiny_loader/tiny_symbol_table.cc:116-151 | The program's tests, both filter bits at once and a shifted exclusive or of chain word and hash, pass for every symbol whose two bits are set and whose chain word agrees in all bits but the last |
| SymbolTable.DefinedExactly | tiny_loader/tiny_symbol_table.cc:111-114 | A symbol counts exactly if it has a section and the upper half of its info byte is 1 or 2 |
| SymbolTable.StringUpToZero | tiny_loader/tiny_symbol_table.cc:106-109 | A name is the bytes of the string table up to the first zero |
| SymbolTable.FindSysvSymbol | tiny_loader/tiny_symbol_table.cc:153-168 | Any answer is the load bias plus the value of a defined global or weak symbol of that name; for an acyclic well-formed table it is null exactly if linear search finds nothing, and that of the same symbol if the name is unique |
| SymbolTable.LinearSearch | tiny_loader/tiny_symbol_table.cc:111-114 | The reference: the first matching symbol from an index on, or none |
| SymbolTable.GnuHash | tiny_loader/tiny_symbol_table.cc:83-91 | The loop is the recursive 32-bit hash of the bytes |
| SymbolTable.ShiftIsTimes | tiny_loader/tiny_symbol_table.cc:86-88 | Shifting and adding is multiplying by 33 on words that wrap |
| SymbolTable.SysvHash | tiny_loader/tiny_symbol_table.cc:93-104 | The loop is the hashing function of chapter 5 of the System V gABI |
| SymbolTable.ExclusiveOrTwice | tiny_loader/tiny_symbol_table.cc:98-100 | Two exclusive ors clear the top bits as the standard's mask does |
| SymbolTable.KnownHashes | tiny_loader/tiny_symbol_table.cc:83-104 | Both hashes of the name exit have their published values |
| SymbolTable.BloomTest | tiny_loader/tiny_symbol_table.cc:129-133 | The combined test passes exactly if both bits are set |
| SymbolTable.WordInBounds | tiny_loader/tiny_symbol_table.cc:126-127 | The masked word number stays inside the filter |
| HashSection.ReadGnuHash | tiny_loader/tiny_loader.cc:561-578 | The fields read from a section lead to every word of its filter, every bucket and the chain word of every symbol a linker has laid out; they are accepted exactly if the number of filter words is zero or a power of two, and then the largest masked word number is inside the filter exactly if the filter is not empty |
| Loader.LoadSegments | tiny_loader/tiny_loader.cc:427-529 | Success: every segment is acceptable and the reservation holds exactly the image; failure: the first unacceptable segment; in both nothing outside the reservation has changed; no reservation: memory is as it was |
| Loader.LoadSegment | tiny_loader/tiny_loader.cc:438-526 | Accepts exactly segments inside the file, not writable and executable unless without file contents, whose mappings are granted; then each byte is the file's byte or, in writable segments, zero |
| Loader.WritableAndExecutable | tiny_loader/tiny_loader.cc:455-486 | A writable and executable segment can be accepted if and only if it has no file contents and a page-aligned offset inside a non-empty file |
| Loader.LoadAll | tiny_loader/tiny_loader.cc:438-528 | Segments are loaded in order up to the first unacceptable one, inside the reservation |
| Loader.BuildOne | tiny_loader/tiny_loader.cc:438-526 | Loading one more page-disjoint segment leaves the loaded ones loaded and the uncovered rest inaccessible |
| Loader.ReserveAddressSpace | tiny_loader/tiny_loader.cc:372-425 | Succeeds exactly if there is something to load and the kernel has room, at the preferred place for a fixed executable; then exactly [start, start + size) is mapped, aligned as asked, and otherwise nothing changes |
| Loader.ReserveOveraligned | tiny_loader/tiny_loader.cc:406-419 | Of the larger reservation exactly the aligned range is kept |
| Loader.PhdrTableGetLoadSize | tiny_loader/tiny_loader.cc:101-134 | The loop computes the rounded extent |
| Loader.LoadExtent | tiny_loader/tiny_loader.cc:92-134 | That extent is the least page range that holds every loadable segment, and empty if there is none |
| ExecEnvironment.MangleGuestEnvp | kernel_api/exec_emulation.cc:41-130 | Null for null; the caller's own array exactly if nothing has to change; otherwise one buffer that is exactly the pointers, the terminating null and the mangled strings |
| ExecEnvironment.CountsMatch | kernel_api/exec_emulation.cc:53-92 | The counting pass computes the bytes the writing pass needs |
| ExecEnvironment.WriteVars | kernel_api/exec_emulation.cc:94-117 | Every write is in bounds, each pointer leads to its string and the strings follow one another without a gap |
| ExecEnvironment.HoldsReads | kernel_api/exec_emulation.cc:94-130 | Reading a C string through each pointer gives back that string |
| ExecEnvironment.NothingToMangle | kernel_api/exec_emulation.cc:72-76 | Without platform variables mangling changes nothing |
| ExecEnvironment.DemangleGuestEnvp | kernel_api/exec_emulation.cc:134-150 | The loop drops plain platform variables and strips the prefix from mangled ones |
| ExecEnvironment.RoundTripExactly | kernel_api/exec_emulation.cc:41-150 | Demangling what was mangled gives the environment with the library path prefix inserted or appended, if and only if no variable already looked mangled |
| ExecEnvironment.LibraryPathComesBack | kernel_api/exec_emulation.cc:103-111 | For every prefix and every old library path, the guest sees the prefix, a colon and then the old path |
| ExecEnvironment.EachComesBack | kernel_api/exec_emulation.cc:41-150 | In any environment, each variable that did not look mangled comes back in its place: a library path with the prefix in front, anything else unchanged |
| ExecEnvironment.OnePathAdded | kernel_api/exec_emulation.cc:119-126 | After them comes a library path that is the prefix alone, exactly if there is a prefix and no variable was a library path |
| ExecEnvironment.HiddenFromHost | kernel_api/exec_emulation.cc:94-130 | No mangled environment has a variable that the host's linker reads |
| ExecEnvironment.HiddenFromGuest | kernel_api/exec_emulation.cc:134-150 | A linker variable that the guest sees was a mangled one before |
| ExecEnvironment.PremangledExample | kernel_api/exec_emulation.cc:134-150 | BERBERIS_GUEST_LD_DEBUG=1 comes back as LD_DEBUG=1 |
| SignalAction.ReportsLastAction | guest_os_primitives/guest_signal_action.cc:172-216 | Over any sequence of calls, failing ones included, and of functions wrapped by others, the reported old action is the last one set, up to SA_RESTORER when unclaimed, and the host handler is the wrapper exactly when the signal is claimed |
| SignalAction.RunRepresents | guest_os_primitives/guest_signal_action.cc:172-216 | After any run the claimed action and the host's together represent the last action set |
| SignalAction.SetRepresents | guest_os_primitives/guest_signal_action.cc:53-168 | An unclaimed action converted to the host and back is the same without SA_RESTORER |
| SignalAction.SaveRestore | guest_os_primitives/guest_signal_action.cc:172-216 | Setting back what was reported, after any calls and any functions wrapped in between, restores the host's action if and only if the signal was not claimed for what is a wrapped host function by then |
| SignalAction.RestoreLosesClaim | guest_os_primitives/guest_signal_action.cc:172-216 | That case is reached in one call |
| SignalAction.GuestSignalAction.Change | guest_os_primitives/guest_signal_action.cc:172-216 | The method is the step of the state machine, also when the new and old action are the same object |
| SignalAction.GuestSignalAction.ConvertGuest | guest_os_primitives/guest_signal_action.cc:116-168 | The branches compute the host action, and claim exactly actions that only the guest can run |
| SignalAction.GuestSignalAction.Claim | guest_os_primitives/guest_signal_action.h:65-68 | Its CHECK always holds where it is called |

## Left out

- Code generators, translators, instruction semantics, calling conventions, JNI and native-bridge wrappers.
- SetStop and TriggerGearShift of the translation cache, and threads still running lite-translated code during gear-up:
  the reply of an invalidation is about slots, not about where other threads are.
- Memory order: atomics are sequentially consistent.
- Guest handlers that leave by siglongjmp, default actions for unclaimed signals, the lookup of recovery code for faults.
- Reservations of 16 bytes, which the program reads in two halves.
- Addresses near 2^64: guest addresses, sizes and offsets are natural numbers, and loading assumes that no segment ends
  near the top of the address space.
- The file probing that zeroes .bss after a guest mmap; how ranges come to be guarded from mprotect. A refused mmap,
  munmap or mremap has no effect on the host.
- PendingSignals: the activations are steps of a state machine rather than methods, because another activation may come
  between any two atomic accesses; updates in place of the status and the queue are the fields of that state.
- Parsing and printing of /proc/self/maps lines: a line is its two addresses, a chunk two addresses and the flag.
- HashSection.ReadGnuHash: stops at the words of the section; that a table built from them is GnuSafe or well-formed is
  up to the file, and a filter of no words is not GnuSafe. The other tags of the dynamic segment are not modelled.
- GuestReservation.StorePairsWithLastLoad: where the bytes of a narrower load or store lie in the region is not modelled;
  a store comes with the whole value of the region.
- Loader.LoadSegments: requires what the ELF format promises of PT_LOAD segments (file offset congruent to the address,
  file size at most memory size) and that no two share a page; the program does not check this.
- Loader.LoadSegments: says nothing about bytes after the file contents of a segment that is not writable, which the
  program leaves as the file has them up to the page end.
- SignalAction.GuestSignalAction.Change: the kernel stores an action as given; it really drops SIGKILL and SIGSTOP from
  masks. The check of the host's own restorer code is not modelled.
- ExecEnvironment.MangleGuestEnvp: counts are unbounded where the program uses int.
- ExecutableSegments.LinkerExecutableSegments.Sync: the headers an entry shows at the moment of a call are part of the
  link map entry, and segment addresses do not wrap.
