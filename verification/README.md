# Verified models of WebAssembly Micro Runtime components

This project models six parts of the runtime in Dafny and proves what they
promise, for all inputs, runs and interleavings. Each part has a specification
(values, step functions, invariants) and, where the source updates state in
place, methods and classes that are proved to compute it.

- **Linear memory and shared heaps** (`LinearMemory`, `SharedHeapSpec`,
  `SharedHeapWorld`, `SharedHeapRuns`, `SharedHeapTheorems`,
  `SharedHeapCounter`, `SharedHeapClients`, `SharedHeapRuntime`): heaps chained
  downward from the top of the app address space, instances attached to a chain,
  the cached window of the last heap used, address translation in both
  directions, malloc and free, memory growth. `SharedHeapCounter` lifts the bound
  on attachments, `SharedHeapClients` the obligation to name first heaps.
  `SharedHeapRuntime` is the same on objects with pointers and proves that every
  run of calls on the objects, creation included, is a run of the state machine.
- **Atomic wait and notify** (`WaitNotifySpec`, `WaitNotifyTheorems`,
  `AtomicWait`): the operators of the "Wait and notify operators" section of the
  WebAssembly Threads proposal. A step is a region that holds the lock.
- **Blocking operations** (`BlockingOp`): the flag handshake between a target and
  its interrupters. A step is a single atomic access to the flags.
- **AOT instantiation** (`HeapPlacement`, `InitExpr`, `Globals`, `Got`): the app
  heap in a new memory, initializer expressions from their bytes to their value,
  the global data area, the global offset table.
- **AOT frames and profiles** (`CallFrames`, `ValueSite`, `PgoDump`, `PgoBytes`):
  two representations of one call stack, value profiling, the raw profile dump
  and a reader of its bytes.
- **Aligned custom sections** (`CustomSection`): the section writer, with integers
  as in section 5.2.2 and sections as in section 5.5.3 of the WebAssembly Core
  Specification.

`Machine` and `Arithmetic` hold widths, wrap-around, remainders and little-endian
numbers. The configuration modelled is little-endian, 64-bit pointers, without
GC, with bounds checks, reference types and extended constant expressions on.

Environment answers are parameters: whether memory can be mapped, moved or
allocated, which storage a new object gets, whether a heap is corrupted or
migrates, when a sleeping thread wakes up, what `atoi` returns.

## Where the code and the expectation part

The model follows the code. These properties hold only under a condition, which
is proved to be exact, or fail on a family of inputs that is characterised:

- The counter of attached instances has 8 bits. It is always right modulo 256, and
  exact below 256 instances; after 256 attaches it reads 0, the chain can be taken
  apart under its users, and the cached window then answers for an address outside
  the chain. A run from nothing to that state is given.
- Chaining keeps the layout only if head and body differ and the head still fits
  below the body in 32-bit space; unchaining only if it starts at a first heap.
- An instance attached to a heap behind the first is not counted there, so the
  chain can be taken apart under it.
- Translating an app address to native and back returns it only if no earlier
  heap of the chain covers the same native byte; two heaps over one buffer break it.
- With pages near 4 GB the page increment for the app heap wraps, and is then too
  small; with pages above 64 KB the page limit may exceed 4 GB, and the moved
  `__heap_base` may not fit its 32-bit global. The last seven heap sizes wrap to 0.
- The compiled bound check for n-byte accesses is exact only if the memory holds
  at least n bytes; below that the limit wraps.
- Notify results count a waiter again that was notified before and has not left.
- The interrupt guarantee lasts until the thread manager withdraws TERMINATE.
- The padding search takes any alignment; for powers of two it is complete only up to 128.
- 0 encodes to no LEB128 bytes at all; the writer never encodes a 0.
- Copying a call stack with `skip + length` of 2^32 or more returns nothing.
- A GOT relocation whose symbol name needs more than 128 bytes is not collected;
  unless a shorter name collects its function, its lookup gives the index behind
  the table.
- A value site may reach 255 nodes; the dump asserts fewer than 255.
- On a counter mismatch the profile size is 0 and the dump is written regardless;
  from 4 GB on the size wraps.
- Counters are counted in 32 bits, so the header of a profile may declare too few.
- Shared-heap free hands an address of a later heap of the chain to the allocator.

## Model

| member | source | states |
|---|---|---|
| LinearMemory.GrowKeepsValid | core/iwasm/common/wasm_memory.c:1656-1826 | one growth keeps size = page bytes × pages ≤ max, end = base + size, the app heap at its offset with its size, and a memory below the shared heaps below them; also when heap migration fails after the move; the page count changes exactly when the request was carried out |
| LinearMemory.GrowIff | core/iwasm/common/wasm_memory.c:1689-1826 | a request for more pages is carried out if and only if current plus requested pages stay within the maximum, end below the attached chain and the system grants it, and else nothing changes; the result is true if and only if it was carried out and a heap that had to move was migrated |
| LinearMemory.RunGrowKeepsValid | core/iwasm/common/wasm_memory.c:1656-1826 | the same over every run of growths |
| LinearMemory.BoundCheckExactIff | core/iwasm/common/wasm_memory.c:1572-1591 | the check `addr <= limit_n` is exact for n-byte accesses if and only if the memory holds at least n bytes |
| LinearMemory.BoundCheckTooShort | core/iwasm/common/wasm_memory.c:1572-1591 | in a memory of one 8-byte page a 16-byte access at 0 passes the check |
| LinearMemory.MemoryInstance.SetBoundCheckBytes | core/iwasm/common/wasm_memory.c:1572-1591 | stores the five limits of a memory size, wrapping below the width |
| LinearMemory.MemoryInstance.Enlarge | core/iwasm/common/wasm_memory.c:1656-1826 | the in-place growth computes the growth function, result and fields, for every answer of the system; of a valid memory the page count grows by the request if and only if it is granted |
| LinearMemory.MemoryInstance.Resize | core/iwasm/common/wasm_memory.c:1819-1826 | pages, size, end and limits after a growth that is carried out |
| LinearMemory.MemoryInstance.Move | core/iwasm/common/wasm_memory.c:1784-1803 | moving the data moves the app heap with it |
| SharedHeapSpec.ChainTiles | core/iwasm/common/wasm_memory.c:228-381 | in a laid-out store every heap of a chain ends where its successor starts and the last one at the top of the address space, in both address widths |
| SharedHeapSpec.ChainDisjoint | core/iwasm/common/wasm_memory.c:228-381 | no heap occurs twice in a chain and app ranges of one chain are disjoint, so chains are acyclic |
| SharedHeapSpec.OneManagedPerChain | core/iwasm/common/wasm_memory.c:328-340 | of any two heaps of a chain at most one is runtime-managed |
| SharedHeapSpec.ChainsApart | core/iwasm/common/wasm_memory.c:316-327 | chains with different first heaps share no heap, so every heap has at most one predecessor |
| SharedHeapSpec.CreateKeepsWellformed | core/iwasm/common/wasm_memory.c:228-294 | a new heap keeps the store well formed and every existing chain as it was |
| SharedHeapSpec.NewHeapIff | core/iwasm/common/wasm_memory.c:228-294 | a heap is created if and only if its size rounded up to pages is between 256 bytes and 1 GB, and given memory is whole pages already; it then stands alone at the top of both address spaces |
| SharedHeapSpec.ChainKeepsWellformed | core/iwasm/common/wasm_memory.c:296-348 | an accepted chaining keeps the store well formed; the new chain is the head followed by the body chain, all other chains are unchanged |
| SharedHeapSpec.ChainAcceptedIff | core/iwasm/common/wasm_memory.c:308-342 | two heaps may be chained if and only if both are unused, neither follows another heap, the head is alone and no two heaps of the new chain are managed |
| SharedHeapSpec.ChainLayoutIff | core/iwasm/common/wasm_memory.c:343-345 | chaining leaves the store laid out if and only if head and body differ and the head fits below the body in the 32-bit range; the code checks neither |
| SharedHeapSpec.SelfChainAccepted | core/iwasm/common/wasm_memory.c:296-348 | a lone heap may be chained to itself, which breaks the layout |
| SharedHeapSpec.UnchainKeepsWellformed | core/iwasm/common/wasm_memory.c:351-381 | unchaining the head only, or the entire chain, keeps the store well formed and says exactly which chains result |
| SharedHeapSpec.ResetKeepsWellformed | core/iwasm/common/wasm_memory.c:383-415 | a reset, with a new pool anywhere or failing half-way without one, keeps the store well formed and every chain as it was |
| SharedHeapWorld.FindAppSpec | core/iwasm/common/wasm_memory.c:712-734 | the chain walk finds a heap that contains the access if and only if there is one |
| SharedHeapWorld.FindNativeSpec | core/iwasm/common/wasm_memory.c:741-774 | the native walk returns the first heap of the chain that contains the native range, and nothing if and only if none does |
| SharedHeapWorld.HitIsContainment | core/iwasm/common/wasm_memory.c:493-541 | the window arithmetic (start, end, wrapped subtraction) is containment in the heap |
| SharedHeapRuns.AppLookupTransparent | core/iwasm/common/wasm_memory.c:692-739 | the cached lookup answers exactly as an uncached search of the attached chain, 0 bytes counted as 1, and keeps the instance valid |
| SharedHeapRuns.AttachedLookup | core/iwasm/common/wasm_memory.c:692-739 | after a hit the cached window is the window of a heap that contains the access |
| SharedHeapRuns.UncachedWalk | core/iwasm/common/wasm_memory.c:712-734 | without the cache the walk gives the same answer |
| SharedHeapRuns.NativeLookupKeeps | core/iwasm/common/wasm_memory.c:741-774 | the native lookup hits exactly when a heap of the chain contains the native range, and leaves that heap cached |
| SharedHeapRuns.CreateKeepsInv | core/iwasm/common/wasm_memory.c:228-294 | creation keeps the invariant of heaps and instances |
| SharedHeapRuns.ChainKeepsInv | core/iwasm/common/wasm_memory.c:296-348 | chaining keeps the invariant: attached chains cannot move |
| SharedHeapRuns.UnchainKeepsInv | core/iwasm/common/wasm_memory.c:351-381 | unchaining keeps the invariant |
| SharedHeapRuns.ResetKeepsInv | core/iwasm/common/wasm_memory.c:383-415 | resetting a detached chain keeps the invariant |
| SharedHeapRuns.AttachKeepsInv | core/iwasm/common/wasm_memory.c:543-594 | attaching keeps the invariant, counter included |
| SharedHeapRuns.DetachKeepsInv | core/iwasm/common/wasm_memory.c:607-655 | detaching keeps the invariant, counter included |
| SharedHeapRuns.EnlargeKeepsInv | core/iwasm/common/wasm_memory.c:1710-1725 | growth of an attached instance keeps linear memory below the chain |
| SharedHeapRuns.AttachedIsCounted | core/iwasm/common/wasm_memory.c:308-314 | an attached chain has a non-zero counter, so chain and unchain refuse it |
| SharedHeapRuns.StepKeepsInv | core/iwasm/common/wasm_memory.c:228-774 | every call keeps the invariant |
| SharedHeapTheorems.RunKeepsInv | core/iwasm/common/wasm_memory.c:228-774 | the invariant is kept by every run of create, chain, unchain, reset, attach, detach, lookups and growth |
| SharedHeapTheorems.ReachableInv | core/iwasm/common/wasm_memory.c:228-774 | so it holds in every state reachable from no heaps and no instances |
| SharedHeapTheorems.NoOverlap | core/iwasm/common/wasm_memory.c:1710-1725 | in every reachable state linear memory and the attached chain share no app address |
| SharedHeapTheorems.NativeToAppOwned | core/iwasm/common/wasm_memory.c:1339-1387 | a native byte of the chain is translated into the app range of its owner |
| SharedHeapTheorems.AppToNativeNullIff | core/iwasm/common/wasm_memory.c:1306-1332 | for every app address: the translation is NULL if and only if the address is neither in linear memory nor in the attached chain |
| SharedHeapTheorems.NativeToAppZero | core/iwasm/common/wasm_memory.c:1353-1386 | a native byte held neither by linear memory nor by the attached chain translates to 0 |
| SharedHeapTheorems.OwnerIff | core/iwasm/common/wasm_memory.c:741-774 | the owner is heap j of the chain if and only if heap j holds the byte and no earlier one does |
| SharedHeapTheorems.AppToNativeOwned | core/iwasm/common/wasm_memory.c:1293-1337 | an app address of the chain is translated through the one heap that contains it |
| SharedHeapTheorems.AppToNativeLinear | core/iwasm/common/wasm_memory.c:1293-1337 | an offset below the memory size is never taken for a shared-heap address |
| SharedHeapTheorems.NativeRoundTrip | core/iwasm/common/wasm_memory.c:1293-1387 | native to app and back is the identity on linear memory and the chain |
| SharedHeapTheorems.AppRoundTripIff | core/iwasm/common/wasm_memory.c:1293-1387 | app to native and back is the identity on an address of heap j of the chain if and only if none of the heaps before it holds the same native byte |
| SharedHeapTheorems.LinearRoundTripIff | core/iwasm/common/wasm_memory.c:1293-1387 | and on an offset of linear memory if and only if no heap of the chain holds the native byte behind it |
| SharedHeapTheorems.AppRoundTrip | core/iwasm/common/wasm_memory.c:1293-1387 | with disjoint native buffers it is the identity on every usable app address |
| SharedHeapTheorems.StepKeepsAttachedChain | core/iwasm/common/wasm_memory.c:308-314 | no call moves or relinks a chain somebody is attached to |
| SharedHeapTheorems.RunKeepsAttachedChain | core/iwasm/common/wasm_memory.c:361-367 | over every run without its detach an instance stays attached to the same, unmoved chain |
| SharedHeapTheorems.FreeOfMalloc | core/iwasm/common/wasm_memory.c:776-845 | free leads a malloc offset back to its native block while the chain is unchanged |
| SharedHeapTheorems.FreeUndoesMalloc | core/iwasm/common/wasm_memory.c:776-845 | an offset returned by malloc stays in the chain and frees the same native block at any later moment before detach |
| SharedHeapTheorems.MallocNames | core/iwasm/common/wasm_memory.c:788-806 | a block of the first managed heap of the chain is returned as its distance from the start of that heap, inside it; 0 without a block |
| SharedHeapTheorems.FreeHandsOn | core/iwasm/common/wasm_memory.c:821-844 | free hands on exactly the addresses from the start of that heap to the top; what it hands on is a block of the heap if and only if the address lies in it |
| SharedHeapTheorems.NothingToAllocate | core/iwasm/common/wasm_memory.c:785-794 | without a memory, a chain or a managed heap in it malloc returns 0 and free hands on nothing |
| SharedHeapTheorems.ChainIs | core/iwasm/common/wasm_memory.c:342-347 | an accepted chaining puts the head directly below the body and changes nothing else; a refused one changes nothing |
| SharedHeapTheorems.UnchainIs | core/iwasm/common/wasm_memory.c:351-381 | unchaining an unused head with a successor puts it, or every heap of its chain, back to the top; every other request changes nothing |
| SharedHeapTheorems.ResetIs | core/iwasm/common/wasm_memory.c:383-415 | a reset of an unused head gives the first managed heap of the chain its new pool, or takes its handle away, and changes nothing else |
| SharedHeapTheorems.AttachIff | core/iwasm/common/wasm_memory.c:543-594 | an instance without a chain is attached if and only if its memory ends at or below the heap; one more user, and the window of that heap; else nothing changes |
| SharedHeapTheorems.DetachIs | core/iwasm/common/wasm_memory.c:607-655 | a detach takes the chain away and one user from its first heap, and nothing else |
| SharedHeapTheorems.EnlargeIs | core/iwasm/common/wasm_memory.c:1692-1726 | in every state a memory grows if and only if the request is granted and, with a chain attached, ends at or below its first heap |
| SharedHeapTheorems.EffectKeepsShut | core/iwasm/common/wasm_memory.c:609-613 | every call keeps this: no access falls into the cached window of an instance without a chain |
| SharedHeapTheorems.ReachableShut | core/iwasm/common/wasm_memory.c:609-648 | so in every reachable state no access of an instance without a chain, new or detached, can be taken for one to a shared heap |
| SharedHeapCounter.AttachCountsModulo | core/iwasm/common/wasm_memory.c:588-590 | with any number of instances the 8-bit counter is right modulo 256 after attach |
| SharedHeapCounter.DetachCountsModulo | core/iwasm/common/wasm_memory.c:618-622 | and after detach |
| SharedHeapCounter.EffectKeepsLoose | core/iwasm/common/wasm_memory.c:228-774 | every call, with no bound on attachments, keeps the chains well formed and the counters right modulo 256 |
| SharedHeapCounter.FreeRunKeepsLoose | core/iwasm/common/wasm_memory.c:228-774 | and so does every run of calls |
| SharedHeapCounter.RunIsFreeRun | core/iwasm/common/wasm_memory.c:228-774 | the runs that stay below the bound are among these |
| SharedHeapCounter.CounterExactIff | core/iwasm/interpreter/wasm_runtime.h:112-114 | after every such run the chains are well formed, and the 8-bit counter of a heap is its number of attached instances if and only if there are fewer than 256 |
| SharedHeapCounter.SetUpRun | core/iwasm/common/wasm_memory.c:228-348 | two heaps over any two buffers can be created and chained, from nothing |
| SharedHeapCounter.AttachManyRun | core/iwasm/common/wasm_memory.c:543-594 | any number of new instances can then be attached, one after the other |
| SharedHeapCounter.CounterOverflows | core/iwasm/common/wasm_memory.c:588-590 | the whole run of n attaches leaves n modulo 256 in the counter, with all n instances attached |
| SharedHeapCounter.CounterOverflowBreaksCache | core/iwasm/common/wasm_memory.c:361-367 | with n a multiple of 256 the run goes on: the attached chain is unchained, and the cached window of an instance claims an address outside its chain |
| SharedHeapCounter.SharedBufferRoundTrip | core/iwasm/common/wasm_memory.c:1293-1387 | a run to two heaps over one buffer, in which the first byte of the second heap comes back as the first byte of the first |
| SharedHeapClients.UnchainLayoutIff | core/iwasm/common/wasm_memory.c:351-381 | an unchain that goes through keeps the layout if and only if it was asked for at a first heap |
| SharedHeapClients.WindowSurvivesIff | core/iwasm/common/wasm_memory.c:361-379 | after an attach to any heap of a chain, an unchain from its first heap leaves the cached window sound unless the heap is behind the first, the first has no users, the whole chain is taken apart and the heap is not the last; or the counter has just wrapped |
| SharedHeapClients.MiddleAttachBreaksCache | core/iwasm/common/wasm_memory.c:361-379 | a run from nothing that attaches to the middle heap of three and takes the chain apart under its user; the cached window then claims an address outside its chain |
| SharedHeapClients.ResetSurvivesIff | core/iwasm/common/wasm_memory.c:383-415 | a reset asked for at any heap leaves the cached window of an attached instance sound if and only if it does not move the pool of the heap whose window is cached |
| SharedHeapRuntime.ModuleInstance.UpdateLastUsed | core/iwasm/common/wasm_memory.c:493-541 | the cache fields become the window of the heap |
| SharedHeapRuntime.Runtime.CreateSharedHeap | core/iwasm/common/wasm_memory.c:228-294 | creation on objects: the error cases, allocation failure included, the new heap at the front of the list, nothing else touched |
| SharedHeapRuntime.Runtime.Instantiate | core/iwasm/aot/aot_runtime.c:2140-2146 | a new instance has its own memory, no chain and a window no access reaches |
| SharedHeapRuntime.Runtime.PerformOnCreate | core/iwasm/common/wasm_memory.c:228-294 | creation is one step of the state machine |
| SharedHeapRuntime.Runtime.PerformOnNewInstance | core/iwasm/aot/aot_runtime.c:2140-2146 | instantiation is one step of the state machine |
| SharedHeapRuntime.Runtime.ChainSharedHeaps | core/iwasm/common/wasm_memory.c:296-348 | succeeds exactly when accepted, then the heaps are the chained store, otherwise unchanged |
| SharedHeapRuntime.Runtime.MayChain | core/iwasm/common/wasm_memory.c:308-340 | the checks pass exactly when both heaps are first and detached, the head is alone and at most one heap would be runtime-managed |
| SharedHeapRuntime.Runtime.IsLinked | core/iwasm/common/wasm_memory.c:316-327 | the list scan finds exactly the linked cases |
| SharedHeapRuntime.Runtime.HasTwoManaged | core/iwasm/common/wasm_memory.c:328-340 | the body walk finds exactly the chains with two managed heaps |
| SharedHeapRuntime.Runtime.UnchainSharedHeaps | core/iwasm/common/wasm_memory.c:351-381 | succeeds exactly on a detached chain of two or more, then the heaps are the unchained store; returns where the walk stopped |
| SharedHeapRuntime.Runtime.ResetSharedHeapChain | core/iwasm/common/wasm_memory.c:383-415 | refused exactly on an attached chain or null; otherwise the heaps are the reset store, and it succeeds exactly when the managed heap, if any, gets a new pool |
| SharedHeapRuntime.Runtime.Repool | core/iwasm/common/wasm_memory.c:163-223 | the managed heap gets the new base, or loses handle and base |
| SharedHeapRuntime.Runtime.TakeApart | core/iwasm/common/wasm_memory.c:369-379 | the pointer walk resets offsets and links heap by heap as the unchained store says |
| SharedHeapRuntime.Runtime.AttachSharedHeap | core/iwasm/common/wasm_memory.c:543-594 | the counter, the instance fields and the cached window after attach; refused exactly in the listed cases |
| SharedHeapRuntime.Runtime.DetachSharedHeap | core/iwasm/common/wasm_memory.c:607-655 | the counter and the instance fields after detach |
| SharedHeapRuntime.Runtime.IsAppAddrInSharedHeap | core/iwasm/common/wasm_memory.c:692-739 | result and cache fields are those of the lookup function |
| SharedHeapRuntime.Runtime.IsNativeAddrInSharedHeap | core/iwasm/common/wasm_memory.c:741-774 | result and cache fields are those of the native lookup function |
| SharedHeapRuntime.Runtime.AddrAppToNative | core/iwasm/common/wasm_memory.c:1293-1337 | computes the app-to-native translation, cache included; NULL if and only if the address is neither in linear memory nor in the chain |
| SharedHeapRuntime.Runtime.AddrNativeToApp | core/iwasm/common/wasm_memory.c:1339-1387 | computes the native-to-app translation, cache included; 0 for every byte that neither linear memory nor the chain holds |
| SharedHeapRuntime.Runtime.FindManaged | core/iwasm/common/wasm_memory.c:776-800 | finds the runtime-managed heap of the chain |
| SharedHeapRuntime.Runtime.SharedHeapMalloc | core/iwasm/common/wasm_memory.c:776-807 | malloc on objects returns the offset of the specification, 0 in every failing case |
| SharedHeapRuntime.Runtime.SharedHeapFree | core/iwasm/common/wasm_memory.c:809-845 | free on objects hands the block of the specification to the allocator, or nothing |
| SharedHeapRuntime.Runtime.Perform | core/iwasm/common/wasm_memory.c:228-774 | each call on the objects, creation included, is one step of the state machine |
| SharedHeapRuntime.Runtime.PerformAll | core/iwasm/common/wasm_memory.c:228-774 | every run of calls on the objects, with heaps and instances created on the way, is a run of the state machine and keeps its invariant |
| WaitNotifySpec.StepKeepsInv | core/iwasm/common/wasm_shared_memory.c:176-247 | every locked region keeps the invariant: each live node is in exactly one list, that of its address, once; the map has an entry exactly for the addresses waited on; time asked for and time left add up |
| WaitNotifyTheorems.RunKeepsInv | core/iwasm/common/wasm_shared_memory.c:176-422 | so a sleeping waiter is queued in every reachable state until its own thread removes it, and its wait info is never released |
| WaitNotifyTheorems.SelectsOwnAddress | core/iwasm/common/wasm_shared_memory.c:461-480 | a notify selects only waiters of its own address |
| WaitNotifyTheorems.NotifiedIffSelected | core/iwasm/common/wasm_shared_memory.c:149-174 | over every run a queued node is marked exactly by the notifies that select it |
| WaitNotifyTheorems.WaitReturnsZeroIffSelected | core/iwasm/common/wasm_shared_memory.c:370-422 | a queued wait returns 0 if and only if a notify on its address selected it between enqueue and dequeue, and 2 if and only if none did |
| WaitNotifyTheorems.NotifyMarksPrefix | core/iwasm/common/wasm_shared_memory.c:149-174 | notify selects min(count, queue length) nodes, marks exactly that prefix and changes nothing else |
| WaitNotifyTheorems.WaitQueuesIff | core/iwasm/common/wasm_shared_memory.c:335-368 | after any value has been stored byte by byte, a 32-bit or 64-bit wait is queued, with all of its timeout left, if and only if it expects that value and gets a node |
| WaitNotifyTheorems.WakeLeavesIff | core/iwasm/common/wasm_shared_memory.c:372-415 | a wake-up ends the wait if and only if it was notified, its thread is terminated or the next second uses up the timeout; memory, other nodes and other lists stay as they are |
| WaitNotifyTheorems.NoLostWakeup | core/iwasm/common/wasm_shared_memory.c:331-342 | after a notify with count at least the queue length every queued wait on the address leaves at its next wake-up with 0, whatever happens in between |
| WaitNotifyTheorems.TimeoutIsExact | core/iwasm/common/wasm_shared_memory.c:370-404 | a wait that times out has asked to sleep for exactly its timeout; one without a timeout never times out |
| WaitNotifyTheorems.NotifyConservation | core/iwasm/common/wasm_shared_memory.c:149-174 | over every run, notify results = waits that returned 0 + notified nodes still queued + nodes notified again |
| WaitNotifyTheorems.ZeroReturnsBounded | core/iwasm/common/wasm_shared_memory.c:461-480 | waits that return 0 never outnumber the sum of notify results, and exactly when the two are equal |
| WaitNotifyTheorems.PickedIffFewCameLater | core/iwasm/common/wasm_shared_memory.c:149-174 | after every run in which a wait is still queued, a notify on its address picks it if and only if fewer than count waiters that arrived later are still queued there |
| WaitNotifyTheorems.NotifyCountsTwice | core/iwasm/common/wasm_shared_memory.c:149-174 | the run of two waits and two notifies of one waiter each, before anybody has left: the results add up to 2 and one waiter is woken |
| AtomicWait.WaitTable.EnterWait | core/iwasm/common/wasm_shared_memory.c:320-368 | value check and enqueue are one protocol step; 1 exactly when the little-endian number of 4 or 8 bytes at the address differs from the expected one, -1 exactly when no node can be had, and then nothing changes |
| AtomicWait.WaitTable.Acquire | core/iwasm/common/wasm_shared_memory.c:176-215 | the node goes to the head of the list of its address, which is created on demand |
| AtomicWait.WaitTable.WakeUp | core/iwasm/common/wasm_shared_memory.c:370-422 | the region after a wake-up is one protocol step, with the code the wait returns |
| AtomicWait.WaitTable.Release | core/iwasm/common/wasm_shared_memory.c:406-422 | removes the node, drops an empty list; the existence assertion holds |
| AtomicWait.WaitTable.Notify | core/iwasm/common/wasm_shared_memory.c:425-481 | is one protocol step and returns min(count, queue length) |
| AtomicWait.NotifyWaitList | core/iwasm/common/wasm_shared_memory.c:149-174 | marks exactly the first min(count, length) nodes |
| AtomicWait.IsWaitNodeExists | core/iwasm/common/wasm_shared_memory.c:133-147 | true exactly for nodes of the list |
| AtomicWait.RemoveFromList | core/shared/utils/bh_list.c:49-75 | removes the first occurrence and nothing else |
| AtomicWait.WaitTable.Perform | core/iwasm/common/wasm_shared_memory.c:149-422 | each region under the lock, on objects, is one step of the protocol |
| AtomicWait.WaitTable.PerformAll | core/iwasm/common/wasm_shared_memory.c:149-422 | every run of waits, wake-ups, notifies and stores on the objects, nodes created on the way, is a run of the protocol and keeps its invariant |
| BlockingOp.RunKeepsInv | core/iwasm/common/wasm_blocking_op.c:25-78 | in every interleaving BLOCKING is set exactly while the target is past its set and before its clear |
| BlockingOp.AssertionsHold | core/iwasm/common/wasm_blocking_op.c:25-50 | neither BLOCKING assertion ever fails |
| BlockingOp.InterruptReturnsOutsideOp | core/iwasm/common/wasm_blocking_op.c:52-78 | when an interrupt returns the target is not between a successful begin and its end |
| BlockingOp.StoppedForever | core/iwasm/common/wasm_blocking_op.c:25-78 | while the cancellation stands a stopped target stays stopped and no begin succeeds |
| BlockingOp.InterruptGuarantee | core/iwasm/common/wasm_blocking_op.c:52-78 | in every run, from the return of an interrupt on, the target is outside and every begin returns false, unless the cancellation is withdrawn |
| BlockingOp.InterruptReturnsIff | core/iwasm/common/wasm_blocking_op.c:66-77 | in every interleaving the loop of an interrupter ends at exactly those tests that find the target outside an operation; else it tests again |
| BlockingOp.InterrupterFinishes | core/iwasm/common/wasm_blocking_op.c:64-77 | outside an operation an interrupter returns within two steps of its own, with TERMINATE set by it |
| BlockingOp.EndReturns | core/iwasm/common/wasm_blocking_op.c:41-50 | in every interleaving the end of an operation clears BLOCKING and nothing else |
| BlockingOp.TerminateIffCancelled | core/iwasm/common/wasm_blocking_op.c:25-78 | after every interleaving TERMINATE is set if and only if its last write by any thread was a set, or it was set before and never withdrawn |
| BlockingOp.BeginRefusedIffCancelled | core/iwasm/common/wasm_blocking_op.c:25-39 | so a begin at its test is refused, returning false with BLOCKING clear, if and only if the cancellation stands at the end of the run before it, and leaves no operation |
| BlockingOp.WithdrawnCancellation | core/iwasm/libraries/thread-mgr/thread_manager.c:1092-1118 | clearing TERMINATE lets a later begin succeed |
| HeapPlacement.WrappedIncrementIff | core/iwasm/aot/aot_runtime.c:1064-1070 | the page increment computed in wrapping 32-bit arithmetic is the number of pages for the part of the heap that does not fit before the page end, and the least that will do, if and only if heap plus page passes 4 GB by no more than what is left of the page |
| HeapPlacement.WrappedIncrementFails | core/iwasm/aot/aot_runtime.c:1064-1070 | a heap of 1 GB behind a page of 3.5 GB: one page is missing, none is added |
| HeapPlacement.PageEnd | core/iwasm/aot/aot_runtime.c:1064-1067 | the bytes to the page end lead to the next page boundary, page-aligned bases included |
| HeapPlacement.GetMaxMem | core/iwasm/common/wasm_runtime_common.c:1719-1741 | without an override the maximal page count; else, of all page counts from the initial to the maximal one, the nearest to the override |
| HeapPlacement.HeapSizeArgument | core/iwasm/aot/aot_runtime.c:1927-1933 | a multiple of 8, at most 1 GB; within 7 of a request up to 1 GB, 1 GB above, and 0 for the last seven 32-bit values, which wrap |
| HeapPlacement.PlaceBeforeHeapBase | core/iwasm/aot/aot_runtime.c:1059-1081 | for pages of any size from 1 KB on: the moved base is the heap end, 1 KB further when that is within 1 KB of a page end; when the increment fits 32 bits it is the missing pages, plus one in that case, and the base has room behind it inside the grown memory |
| HeapPlacement.PlaceInNewPages | core/iwasm/aot/aot_runtime.c:1091-1099 | the least number of new pages, all but 1 KB of them for the heap, as long as heap plus page is at most 4 GB; beyond that no page and no heap |
| HeapPlacement.MemoryInstantiate | core/iwasm/aot/aot_runtime.c:977-1151 | for every 32-bit memory with pages from 1 KB on, in all layouts: refused exactly when listed; otherwise the heap window is inside the initial memory and off everything of the module, an adjusted base is after it and inside, initial ≤ max pages and the memory fits 4 GB, all of it if and only if the increment fits and the raised page limit fits 4 GB; where the heap starts, the page size and, when the increment fits, the refusals are stated in plain numbers; a module that exports malloc and free keeps its memory as it is |
| HeapPlacement.PlacementIff | core/iwasm/aot/aot_runtime.c:1039-1122 | the same about the placement the code computes |
| HeapPlacement.GapIff | core/iwasm/aot/aot_runtime.c:1073-1080 | `__heap_base` moves one KB further if and only if a page ends within the KB that would follow the heap |
| HeapPlacement.PlacedIsLocated | core/iwasm/aot/aot_runtime.c:1013-1112 | when the increment fits, a heap is refused if and only if the memory is 4 GB already, or the one page or the page count would be too large; otherwise it starts at `__heap_base` or the end of the memory |
| HeapPlacement.AssertionIff | core/iwasm/aot/aot_runtime.c:1120-1122 | the assertion on the maximal size holds if and only if pages have at most 64 KB, the heap shares or is the only page, or the raised page limit fits 4 GB |
| HeapPlacement.AssertionFails | core/iwasm/aot/aot_runtime.c:1120-1122 | pages of 128 KB with 65536 maximal pages violate it |
| HeapPlacement.BaseSurvivesIff | core/iwasm/aot/aot_runtime.c:1083-1088 | the moved base survives its cast to 32 bits, and is at or after the heap end, if and only if it lies below 4 GB |
| HeapPlacement.BaseWraps | core/iwasm/aot/aot_runtime.c:1083-1088 | with three pages of 2 GB a base moved past 4 GB is stored as 1024 |
| HeapPlacement.WindowInsideIff | core/iwasm/aot/aot_runtime.c:1130-1151 | the heap window is inside the initial memory in every layout but before the base; there if and only if the increment fits, or the window fits without it, or a page is added for the gap |
| HeapPlacement.WrongIncrementIsCaught | core/iwasm/aot/aot_runtime.c:1120-1122 | before the base a wrong increment always violates the assertion, too |
| HeapPlacement.HeapIsDropped | core/iwasm/aot/aot_runtime.c:1091-1099 | in new pages it need not: a heap of 1 GB is dropped without an error |
| HeapPlacement.PlacementSurvivesGrowth | core/iwasm/aot/aot_runtime.c:1130-1175 | the placed memory is a valid start for growth, and over every run of growths the heap keeps its place inside memory and below the adjusted base |
| InitExpr.LoadInitExpr | core/iwasm/aot/aot_loader.c:1216-1433 | returns what the reader function says, reads only below the end of the buffer, terminates by cursor progress, and moves the caller's cursor only on success |
| InitExpr.LoadStaysAligned | core/iwasm/aot/aot_loader.c:207-222 | every field is whole words, so later alignments change nothing |
| InitExpr.LoadIff | core/iwasm/aot/aot_loader.c:1216-1433 | for every expression, buffer and cursor: the reader returns that expression with the cursor right behind it if and only if its encoding lies there |
| InitExpr.TagValue | core/iwasm/aot/aot_loader.c:1216-1230 | comparing the stored bytes with a tag is comparing the 32-bit number |
| InitExpr.EvalDefinedIff | core/iwasm/aot/aot_runtime.c:204-244 | evaluation fails exactly on a leaf that is neither an integer constant nor an immutable import |
| InitExpr.EvalIsExact | core/iwasm/aot/aot_runtime.c:476-558 | wrapping after every operator gives the exact integer value of the tree, by the opcodes of the WebAssembly binary format, wrapped once to 32 or 64 bits |
| InitExpr.SubUndoesAdd | core/iwasm/aot/aot_runtime.c:524-551 | subtracting what was added gives the first operand back, for all expressions of either width |
| InitExpr.MulByOne | core/iwasm/aot/aot_runtime.c:524-551 | multiplying by the constant 1 changes nothing, for all expressions of either width |
| InitExpr.StoredExprMeaning | core/iwasm/aot/aot_runtime.c:476-558 | from the stored encoding to the wrapped meaning of the tree, stated by opcode |
| Globals.AssignOffsets | core/iwasm/aot/aot_loader.c:2277-2280 | the running offset and size are the sums of the sizes so far, modulo 2^32 |
| Globals.LoadOffsets | core/iwasm/aot/aot_loader.c:2244-2357 | every offset of imported and defined globals is the start of its slot; the data size is the sum |
| Globals.SlotsTile | core/iwasm/aot/aot_loader.c:2332-2357 | slots are disjoint, in order, and inside the area they fill |
| Globals.OffsetsAreWalked | core/iwasm/aot/aot_runtime.c:570-583 | the assertions of instantiation compare the offsets and the size the loader computed with the bytes stored so far; they hold for every module, even one whose data would wrap |
| Globals.InitBytes | core/iwasm/aot/aot_runtime.c:246-289 | the bytes stored for a global, and the zeros they leave, are the low bytes of its value or the null reference |
| Globals.GlobalInstantiate | core/iwasm/aot/aot_runtime.c:560-775 | fails exactly when some initializer has no value; otherwise the zeroed data area becomes the concatenation of all slots |
| Globals.GlobalReadsBack | core/iwasm/aot/aot_runtime.c:560-775 | below 4 GB, reading any global at its loader offset gives its own initial value |
| Globals.ConstantReadsBack | core/iwasm/aot/aot_runtime.c:595-767 | a global initialized by a constant of its type, number, vector or function index, holds exactly the bytes of the constant, and a null reference four bytes 0xFF |
| Got.AotModule.FindItem | core/iwasm/aot/aot_loader.c:3236-3247 | the list walk finds the item of a function, or the end if there is none |
| Got.AotModule.CollectItems | core/iwasm/aot/aot_loader.c:3691-3795 | fails exactly on an index out of range; otherwise items are distinct and exactly the wanted functions |
| Got.AotModule.BuildGot | core/iwasm/aot/aot_loader.c:3691-3814 | besides, every slot holds the pointer of its item's function |
| Got.AotModule.ResolveFunction | core/iwasm/aot/aot_loader.c:3228-3254 | a GOT relocation to function N gets a slot holding func_ptrs[N] if the collecting pass wanted N, and otherwise an index one past the table |
| Got.NeededIffNamedShortly | core/iwasm/aot/aot_loader.c:3742-3753 | a function gets a table entry if and only if some relocation of kind 9, 41 or 42 names it by `aot_func#` and its index in fewer than 128 bytes |
| Got.ResolvedIffNamesFit | core/iwasm/aot/aot_loader.c:3742-3753 | for every file, all GOT relocations find their own function's entry if and only if each one with an overlong name has another to the same function whose name fits |
| Got.LongNameIsMissed | core/shared/utils/bh_common.c:79-97 | a name of 128 characters leaves the buffer empty and is missed; the table of a file with nothing else is empty and the lookup gives the index behind it |
| CallFrames.CopiedIffNoWrap | core/iwasm/aot/aot_runtime.c:4336-4388 | a copy returns min(length, max(0, depth - skip)) frames if and only if skip + length does not wrap or nothing is to be copied |
| CallFrames.CopyWraps | core/iwasm/aot/aot_runtime.c:4362-4388 | a call that asks for everything after the first frame gets nothing |
| CallFrames.ExecEnv.GetTopFrame | core/iwasm/aot/aot_runtime.c:174-185 | both representations give the pointer to the top frame, NULL exactly on the empty stack |
| CallFrames.ExecEnv.GetPrevFrame | core/iwasm/aot/aot_runtime.c:187-201 | both representations lead one frame down, NULL exactly below the oldest |
| CallFrames.ExecEnv.AllocTinyFrame | core/iwasm/aot/aot_runtime.c:4210-4225 | push, refused exactly when the frame of 8 bytes would pass the boundary |
| CallFrames.ExecEnv.AllocStandardFrame | core/iwasm/aot/aot_runtime.c:4104-4149 | push, refused exactly when the frame would pass the boundary |
| CallFrames.ExecEnv.AllocFrame | core/iwasm/aot/aot_runtime.c:4227-4246 | push, except for defined functions in frame-per-function mode |
| CallFrames.ExecEnv.FreeFrame | core/iwasm/aot/aot_runtime.c:4248-4288 | pop |
| CallFrames.ExecEnv.Unwind | core/iwasm/aot/aot_runtime.c:2817-2823 | terminates and restores the stack that was there, however many frames are left above it |
| CallFrames.ExecEnv.CallFunction | core/iwasm/aot/aot_runtime.c:2792-2825 | whatever the callee pushes, pops and leaves behind, the caller's stack is restored |
| CallFrames.ExecEnv.CopyTiny | core/iwasm/aot/aot_runtime.c:4334-4388 | copies the frames after the first skip ones, newest first, and touches nothing else of the buffer |
| CallFrames.ExecEnv.CopyStandard | core/iwasm/aot/aot_runtime.c:4390-4439 | copies the frames after the first skip ones, newest first, and touches nothing else of the buffer |
| CallFrames.ExecEnv.CopyCallStack | core/iwasm/aot/aot_runtime.c:4441-4462 | both representations answer alike: a window of the stack, newest first |
| CallFrames.ExecEnv.CreateCallStack | core/iwasm/aot/aot_runtime.c:4467-4573 | records every frame, newest first |
| ValueSite.ObserveKeeps | core/iwasm/aot/aot_runtime.c:4796-4862 | one observation keeps values distinct, counts between 1 and the true number, the list within its limit; and complete while allocation succeeds |
| ValueSite.RunKeeps | core/iwasm/aot/aot_runtime.c:4796-4862 | the same over every observation sequence; up to the limit all values are recorded with exact counts, and the length is min(limit, number of values seen) |
| ValueSite.OnlyLowestGivesWay | core/iwasm/aot/aot_runtime.c:4832-4841 | a full list displaces or decrements only the lowest count; higher counts stay as they are |
| ValueSite.WeightIsAdded | core/iwasm/aot/aot_runtime.c:4819-4823 | an observation of any weight adds it to the value's own node, or to a new one at the end, and to nothing else; without memory nothing changes |
| ValueSite.FullListChanges | core/iwasm/aot/aot_runtime.c:4833-4843 | a new value always changes a full list, in the first node with the lowest count: it loses the weight, or is replaced if it has no more |
| ValueSite.TakesOver | core/iwasm/aot/aot_runtime.c:4833-4843 | seen on a full list as often as the lowest count, a value takes that node over and is counted from then on |
| ValueSite.DumpAssertionIff | core/iwasm/aot/aot_runtime.c:5194-5206 | the dump's assertion of fewer than 255 nodes holds exactly for sites that saw fewer than 255 different values |
| ValueSite.DumpAssertionFails | core/iwasm/aot/aot_runtime.c:5194-5206 | the run in which a site sees the values 0 to 254, once each, ends with 255 nodes and violates it |
| ValueSite.Site.InstrumentTargetValue | core/iwasm/aot/aot_runtime.c:4796-4862 | the list walk, increment, displacement of the lowest count and append are the observation step; the uint8 counter does not wrap |
| ValueSite.Site.InstrumentAll | core/iwasm/aot/aot_runtime.c:4864-4869 | any sequence of observations leaves a sound, and without allocation failures complete, list |
| PgoDump.GetPgoProfDataSize | core/iwasm/aot/aot_runtime.c:4922-5023 | counts, sizes, names and total of the size pass, all uint32 sums wrapping; all zero on a counter mismatch |
| PgoDump.DumpSizeIff | core/iwasm/aot/aot_runtime.c:5039-5245 | the dump emits exactly as many bytes as the size pass computed if and only if the counter sections match their declared counts and the file is below 4 GB |
| PgoDump.ValueAssertionIff | core/iwasm/aot/aot_runtime.c:5241-5242 | the closing assertion on value bytes holds if and only if the counters match or the value bytes are 0 modulo 2^32 |
| PgoDump.MismatchIsDumped | core/iwasm/aot/aot_runtime.c:4953-4954 | a module that declares a counter and a value site and has no counter section: size 0 and no value bytes reported, a file and a value record emitted |
| PgoDump.ValueRecordSize | core/iwasm/aot/aot_runtime.c:5160-5238 | a value record has the size the size pass added for it, and its TotalSize field says so |
| PgoDump.CounterOffsetLands | core/iwasm/aot/aot_runtime.c:5063-5073 | with sections in the same order, every relative counter offset of a file below 4 GB leads from its record to its own counters |
| PgoBytes.CountsReadIff | core/iwasm/aot/aot_runtime.c:5194-5206 | the one-byte list lengths are read right if and only if every list has at most 255 nodes |
| PgoBytes.ValueRecordReadsBack | core/iwasm/aot/aot_runtime.c:5160-5238 | reading undoes emitting: a value record gives back its size and, kind by kind and site by site, all values and counts |
| PgoBytes.BufferIsFaithful | core/iwasm/aot/aot_runtime.c:5160-5238 | a field stored little-endian in a buffer is read as it was written |
| PgoBytes.FileValuesReadBack | core/iwasm/aot/aot_runtime.c:5039-5245 | in every buffer that holds the dump, the value record of each function is found after the fixed part and reads back |
| PgoBytes.FileCountersReadBack | core/iwasm/aot/aot_runtime.h:442-493 | in every buffer that holds the dump, the offset stored in a data record leads a reader from the record to that function's counters |
| PgoBytes.FileHeaderReadsBack | core/iwasm/aot/aot_runtime.c:5063-5104 | in every buffer that holds the dump of a file below 4 GB with matching counters: the magic number, version 9 with its two flags, the numbers of records, counters and name bytes, the counter delta and the last value kind, all other words 0; the number of counters is exact if and only if it is below 2^32 |
| PgoBytes.HeaderCountWraps | core/iwasm/aot/aot_runtime.c:4935-4954 | two functions that declare 2^31 counters each and have none pass the counter test, and the header says 0 |
| PgoBytes.FileRecordReadsBack | core/iwasm/aot/aot_runtime.c:5108-5138 | in every such buffer every field of every data record reads back; the counter offset, which is not a field of the module, is the subject of `FileCountersReadBack` |
| PgoBytes.FileNamesReadBack | core/iwasm/aot/aot_runtime.c:5148-5159 | in every such buffer the bytes of the last names section follow the counters, with zeros up to the next multiple of eight |
| PgoDump.SectionsInOrder | core/iwasm/aot/aot_runtime.c:4935-4950 | data and counter sections are taken in their order, each once and nothing else |
| PgoDump.Emitter.EmitValueRecord | core/iwasm/aot/aot_runtime.c:5160-5238 | emits the value record and fills in TotalSize from the distance the cursor moved |
| PgoDump.Emitter.EmitRecords | core/iwasm/aot/aot_runtime.c:5063-5073 | the records carry the running counter offsets |
| PgoDump.Emitter.Dump | core/iwasm/aot/aot_runtime.c:5039-5245 | writes the whole image and returns the computed size, or nothing and 0 if the buffer is too small; its bytes are read back by `PgoBytes.FileHeaderReadsBack`, `FileRecordReadsBack`, `FileCountersReadBack`, `FileNamesReadBack` and `FileValuesReadBack` |
| CustomSection.Leb128EncodeUint | test-tools/append-aot-to-wasm/append_aot_to_wasm.py:18-34 | computes the encoding |
| CustomSection.Leb128DecodeUint | test-tools/append-aot-to-wasm/append_aot_to_wasm.py:37-54 | computes bytes consumed and value; fails exactly on the empty input |
| CustomSection.UnlebOfLeb | test-tools/append-aot-to-wasm/append_aot_to_wasm.py:18-54 | decoding undoes encoding, whatever follows, for every number if and only if it is not 0 |
| CustomSection.LebGroups | test-tools/append-aot-to-wasm/append_aot_to_wasm.py:18-34 | byte i of an encoded number holds its i-th group of seven bits, with the top bit set in all bytes but the last |
| CustomSection.LebGrowsOnce | test-tools/append-aot-to-wasm/append_aot_to_wasm.py:18-34 | within any window of 256 the length of an encoding grows at most once |
| CustomSection.PaddingExists | test-tools/append-aot-to-wasm/append_aot_to_wasm.py:71-81 | up to alignment 128 some padding in the search window aligns the content |
| CustomSection.PaddingMayNotExist | test-tools/append-aot-to-wasm/append_aot_to_wasm.py:71-81 | for every larger power of two below 2^64 there is a section without one, of less than 512 times the alignment |
| CustomSection.AlwaysFoundIff | test-tools/append-aot-to-wasm/append_aot_to_wasm.py:71-81 | the search succeeds on all inputs if and only if the alignment is at most 128 |
| CustomSection.CalcPadding | test-tools/append-aot-to-wasm/append_aot_to_wasm.py:71-81 | returns the shortest padding vector from the window that aligns the content, if there is one |
| CustomSection.CreateCustomSectionAligned | test-tools/append-aot-to-wasm/append_aot_to_wasm.py:88-125 | the section returned reads back, whatever follows it, with id 0, its exact length, the name, a zero padding and the content at an aligned offset of the file; fails exactly when no padding is found, never up to alignment 128; the padding is the shortest that will do |
| CustomSection.WrittenReadsBack | test-tools/append-aot-to-wasm/append_aot_to_wasm.py:88-125 | reading undoes writing: id 0, exact length, name, padding, content and what follows |

## Left out

- Heap mapping, protection, signals and the EMS allocator: a block returned by the allocator lies in the managed heap, nothing else of it is modelled.
- Linear memories shared between instances: an instance owns its memory, so growth through another instance is not covered.
- SharedHeapTheorems.RunKeepsInv: runs keep to fewer than 256 instances attached to one chain, chain distinct heaps that fit the 32-bit range, and attach, reset and unchain first heaps only; what happens beyond is stated by `CounterExactIff`, `CounterOverflowBreaksCache`, `ChainLayoutIff`, `UnchainLayoutIff`, `WindowSurvivesIff` and `ResetSurvivesIff`.
- SharedHeapRuntime.Runtime.ResetSharedHeapChain: the zeros written into pre-allocated heaps are not modelled, memory contents are not part of the model.
- AtomicWait.WaitTable.EnterWait: the address and sharing checks before the lock is taken are not modelled; elapsed time is what was asked for, not clock time.
- BlockingOp.InterruptGuarantee: says nothing about an interrupter that never returns; termination of its loop depends on the target reacting to the wake-up signal.
- HeapPlacement.MemoryInstantiate: memory64 and memories inherited from a parent instance are not modelled; pages have at least 1 KB, below which the 1 KB taken off the heap would wrap, and page counts are in order and at most 65536, as WebAssembly validation demands and the AOT loader does not check again.
- InitExpr.LoadInitExpr: allocation failures and the GC expression kinds are not modelled; the buffer does not touch the last 32 bytes of the address space.
- Globals.GlobalInstantiate: the data area has the true sum of the sizes, where the source allocates that sum modulo 2^32; the two differ only from 4 GB of globals on.
- Got.AotModule.CollectItems: the byte layout of the relocation section is not modelled, relocations arrive decoded.
- CallFrames.ExecEnv.CreateCallStack: function names and the copy of locals are not modelled, and allocation succeeds.
- CallFrames.ExecEnv.AllocStandardFrame: profiling fields of a frame are not modelled.
- ValueSite.Site.InstrumentTargetValue: single-threaded, counts below 2^64 - 1, table already allocated.
- PgoDump.Emitter.Dump: the output is a sequence of fields and raw bytes with their widths; `PgoBytes` says which buffers hold it, the copying into a buffer is not modelled.
- CustomSection.PaddingMayNotExist: alignments of 2^64 and more are not covered.
- GC objects, string references, multi-module linking, WASI start-up, PLT tables and the application of relocations.
- LLVM code emission, which turns each opcode into IR, the floating-point intrinsics it calls, and the command-line tools, which parse options and print results.
