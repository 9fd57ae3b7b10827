/**
 The shared-heap API on objects: heap records linked by `chainNext` and updated
 in place, module instances whose cache is overwritten during lookups. Every
 method is proved against the corresponding step of the state machine.
 */
module SharedHeapRuntime {
  import opened Machine
  import opened SharedHeapSpec
  import opened SharedHeapWorld
  import opened SharedHeapRuns
  import opened SharedHeapTheorems
  import LM = LinearMemory

  class SharedHeap {
    var chainNext: SharedHeap?
    var heapHandle: bool
    var baseAddr: nat
    var size: nat
    var startOffMem64: nat
    var startOffMem32: nat
    var attachedCount: nat

    ghost function View(): (h: Heap<SharedHeap>)
      reads this
    {
      Heap(size, baseAddr, heapHandle, startOffMem64, startOffMem32, Ref(chainNext), attachedCount)
    }

    /** The fields a new heap gets, in the storage the allocator handed out. */
    method Init(size: nat, baseAddr: nat, heapHandle: bool)
      requires size <= Top(false)
      modifies this
      ensures View() == Alone(Heap(size, baseAddr, heapHandle, 0, 0, None, 0))
    {
      this.chainNext := null;
      this.heapHandle := heapHandle;
      this.baseAddr := baseAddr;
      this.size := size;
      this.startOffMem64 := UINT64_MAX - size + 1;
      this.startOffMem32 := UINT32_MAX - size + 1;
      this.attachedCount := 0;
    }
  }

  ghost function Ref(h: SharedHeap?): Option<SharedHeap> {
    if h == null then None else Some(h)
  }

  class ModuleInstance {
    var memory: LM.MemoryInstance?
    var sharedHeap: SharedHeap?
    var startOff: nat
    var endOff: nat
    var baseAddrAdj: nat

    ghost function View(): (n: Inst<SharedHeap>)
      reads this, memory
    {
      Inst(if memory == null then None else Some(memory.View()), Ref(sharedHeap), startOff, endOff, baseAddrAdj)
    }

    /** `update_last_used_shared_heap`. */
    method UpdateLastUsed(heap: SharedHeap, isMemory64: bool)
      requires Start(heap.View(), isMemory64) < UINT64_TOP
      modifies `startOff, `endOff, `baseAddrAdj
      ensures View() == Cached(old(View()), heap.View(), isMemory64)
    {
      if isMemory64 {
        startOff := heap.startOffMem64;
      } else {
        startOff := heap.startOffMem32;
      }
      endOff := Add64(Sub64(startOff, 1), heap.size);
      baseAddrAdj := Sub64(heap.baseAddr, startOff);
    }
  }

  class Runtime {
    var heapList: seq<SharedHeap>
    ghost var instances: set<ModuleInstance>

    ghost function Memories(): set<LM.MemoryInstance?>
      reads this, instances
    {
      set i | i in instances :: i.memory
    }

    ghost function Heaps(): (hs: Store<SharedHeap>)
      reads this, heapList
    {
      map h | h in heapList :: h.View()
    }

    ghost function View(): (w: World<SharedHeap, ModuleInstance>)
      reads this, heapList, instances, Memories()
    {
      World(Heaps(), map i | i in instances :: i.View())
    }

    /** No two instances share a linear memory. */
    ghost predicate Unshared()
      reads this, instances
    {
      forall i, j | i in instances && j in instances && i != j && i.memory != null :: i.memory != j.memory
    }

    constructor ()
      ensures heapList == [] && instances == {}
      ensures View() == EmptyWorld() && Inv(View()) && Unshared()
    {
      heapList := [];
      instances := {};
    }

    /**
     `wasm_runtime_create_shared_heap`. `storage` is what the allocator returned
     for the record, null when it had no room.
     */
    method CreateSharedHeap(storage: SharedHeap?, size: nat, page: nat, pre: Option<nat>, mapped: Option<nat>)
      returns (r: SharedHeap?)
      requires size < UINT32_TOP && 0 < page && (storage != null ==> storage !in heapList)
      modifies this`heapList, if storage == null then {} else {storage}
      ensures r == null <==> storage == null || NewHeap<SharedHeap>(size, page, pre, mapped).None?
      ensures r == null ==> heapList == old(heapList)
      ensures r != null ==> r == storage && heapList == [r] + old(heapList)
                            && Some(r.View()) == NewHeap<SharedHeap>(size, page, pre, mapped)
    {
      if size == 0 || storage == null {
        return null;
      }
      var aligned := AlignUint(size, page);
      if aligned > APP_HEAP_SIZE_MAX || aligned < APP_HEAP_SIZE_MIN {
        return null;
      }
      if pre.Some? {
        if aligned != size {
          return null;
        }
        storage.Init(aligned, pre.value, false);
      } else {
        if mapped.None? {
          return null;
        }
        storage.Init(aligned, mapped.value, true);
      }
      heapList := [storage] + heapList;
      return storage;
    }

    /** The shared-heap part of instantiation: `inst` is new storage, `mem` the instance's linear memory. */
    method Instantiate(inst: ModuleInstance, mem: Option<LM.Mem>)
      requires inst !in instances
      modifies this`instances, inst
      ensures instances == old(instances) + {inst}
      ensures inst.View() == NewInst(mem) && (inst.memory != null ==> fresh(inst.memory))
    {
      inst.memory := null;
      if mem.Some? {
        inst.memory := new LM.MemoryInstance(mem.value);
      }
      inst.startOff := UINT64_MAX;
      inst.endOff := 0;
      inst.baseAddrAdj := 0;
      inst.sharedHeap := null;
      instances := instances + {inst};
    }

    /** `wasm_runtime_chain_shared_heaps`. */
    method ChainSharedHeaps(head: SharedHeap?, body: SharedHeap?) returns (r: SharedHeap?)
      requires Layout(Heaps())
      requires head != null ==> head in heapList
      requires body != null ==> body in heapList
      modifies if head == null then {} else {head}
      ensures r != null <==> head != null && body != null && old(ChainAccepted(Heaps(), head, body))
      ensures r == null ==> Heaps() == old(Heaps())
      ensures r != null ==> r == head && Heaps() == Chained(old(Heaps()), head, body)
    {
      if head == null || body == null {
        return null;
      }
      var ok := MayChain(head, body);
      if !ok {
        return null;
      }
      Link(head, body);
      return head;
    }

    /** The checks before two heaps are linked. */
    method MayChain(head: SharedHeap, body: SharedHeap) returns (ok: bool)
      requires Layout(Heaps()) && head in heapList && body in heapList
      ensures ok <==> ChainAccepted(Heaps(), head, body)
      ensures head.size < UINT64_TOP
    {
      assert Placed(Heaps(), head);
      if head.attachedCount != 0 || body.attachedCount != 0 {
        return false;
      }
      var linked := IsLinked(head, body);
      if linked {
        return false;
      }
      var crowded := HasTwoManaged(head, body);
      return !crowded;
    }

    method Link(head: SharedHeap, body: SharedHeap)
      requires head in heapList && body in heapList && head.size < UINT64_TOP
      modifies head
      ensures Heaps() == Chained(old(Heaps()), head, body)
    {
      head.startOffMem64 := Sub64(body.startOffMem64, head.size);
      head.startOffMem32 := Sub64(body.startOffMem32, head.size);
      head.chainNext := body;
    }

    /** The scan of the heap list: one of the two is a body already, or `head` already a head. */
    method IsLinked(head: SharedHeap, body: SharedHeap) returns (linked: bool)
      requires head in heapList && body in heapList
      ensures linked <==> !(First(Heaps(), head) && First(Heaps(), body) && head.chainNext == null)
    {
      for at := 0 to |heapList|
        invariant forall p | p in heapList[..at] ::
                    p.chainNext != head && p.chainNext != body && (p == head ==> p.chainNext == null)
      {
        var cur := heapList[at];
        if cur.chainNext == body || cur.chainNext == head {
          assert cur in Heaps() && (Heaps()[cur].next == Some(head) || Heaps()[cur].next == Some(body));
          return true;
        }
        if cur == head && cur.chainNext != null {
          return true;
        }
      }
      assert heapList[..|heapList|] == heapList;
      return false;
    }

    /** The walk over the body chain: more than one runtime-managed heap would be in the chain. */
    method HasTwoManaged(head: SharedHeap, body: SharedHeap) returns (crowded: bool)
      requires Layout(Heaps()) && head in heapList && body in heapList
      ensures crowded <==> (if head.heapHandle then 1 else 0) + ManagedCount(Heaps(), body) > 1
    {
      ghost var hs := Heaps();
      ghost var total := (if head.heapHandle then 1 else 0) + ManagedCount(hs, body);
      var handleExists := head.heapHandle;
      var cur: SharedHeap? := body;
      while cur != null
        invariant cur != null ==> cur in heapList
        invariant total == (if handleExists then 1 else 0) + (if cur == null then 0 else ManagedCount(hs, cur))
        decreases if cur == null then 0 else Top(false) - hs[cur].start32 + 1
      {
        assert Placed(hs, cur);
        if cur.heapHandle && handleExists {
          return true;
        }
        if cur.heapHandle {
          handleExists := true;
        }
        cur := cur.chainNext;
      }
      return false;
    }

    /** `wasm_runtime_unchain_shared_heaps`. */
    method UnchainSharedHeaps(head: SharedHeap?, entireChain: bool) returns (r: SharedHeap?)
      requires Layout(Heaps())
      requires head != null ==> head in heapList
      modifies heapList
      ensures heapList == old(heapList)
      ensures r == null <==> head == null || old(head.chainNext == null || head.attachedCount != 0)
      ensures r == null ==> Heaps() == old(Heaps())
      ensures r != null ==> Heaps() == Unchained(old(Heaps()), head, entireChain)
      ensures r != null ==> r == if entireChain then Last(old(Chain(Heaps(), head))) else old(head.chainNext)
    {
      if head == null || head.chainNext == null {
        return null;
      }
      if head.attachedCount != 0 {
        return null;
      }
      r := TakeApart(head, entireChain);
    }

    /** The loop that resets offsets and links, one heap after the other. */
    method TakeApart(head: SharedHeap, entireChain: bool) returns (cur: SharedHeap)
      requires Layout(Heaps()) && head in heapList && head.chainNext != null
      modifies heapList
      ensures heapList == old(heapList)
      ensures Heaps() == Unchained(old(Heaps()), head, entireChain)
      ensures cur == if entireChain then Last(old(Chain(Heaps(), head))) else old(head.chainNext)
    {
      ghost var hs := Heaps();
      ghost var c := Chain(hs, head);
      ghost var at := 0;
      cur := head;
      SmallEnough(hs);
      while cur.chainNext != null
        invariant at < |c| && cur == c[at] && cur in heapList
        invariant cur.View() == hs[cur]
        invariant !entireChain ==> at == 0
        invariant Heaps() == AllReset(hs, c[..at])
        decreases |c| - at
      {
        UnchainRound(hs, head, at);
        var next := cur.chainNext;
        Reset(cur);
        cur := next;
        at := at + 1;
        assert cur in Heaps();
        if !entireChain {
          UnchainedHead(hs, head);
          return;
        }
      }
      UnchainedAll(hs, head, at);
    }

    method Reset(cur: SharedHeap)
      requires cur in heapList && cur.size <= Top(false)
      modifies cur
      ensures Heaps() == old(Heaps())[cur := Alone(old(cur.View()))]
    {
      cur.startOffMem64 := UINT64_MAX - cur.size + 1;
      cur.startOffMem32 := UINT32_MAX - cur.size + 1;
      cur.chainNext := null;
    }

    /** `wasm_runtime_reset_shared_heap_chain`; `mapped` is where the pool is mapped anew, if it can be. */
    method ResetSharedHeapChain(head: SharedHeap?, mapped: Option<nat>) returns (ok: bool)
      requires Wellformed(Heaps()) && (head != null ==> head in heapList)
      modifies heapList
      ensures heapList == old(heapList)
      ensures head == null || old(head.attachedCount) != 0 ==> !ok && Heaps() == old(Heaps())
      ensures head != null && old(head.attachedCount) == 0 ==>
                && Heaps() == ResetStore(old(Heaps()), head, mapped)
                && (ok <==> old(ManagedHeap(Heaps(), head)).None? || mapped.Some?)
    {
      if head == null || head.attachedCount != 0 {
        return false;
      }
      ok := ResetEach(head, mapped);
    }

    /** The walk: the managed heap gets a new pool, the others are only filled with zeros. */
    method ResetEach(head: SharedHeap, mapped: Option<nat>) returns (ok: bool)
      requires Wellformed(Heaps()) && head in heapList
      modifies heapList
      ensures heapList == old(heapList) && Heaps() == ResetStore(old(Heaps()), head, mapped)
      ensures ok <==> old(ManagedHeap(Heaps(), head)).None? || mapped.Some?
    {
      ghost var hs, done := Heaps(), false;
      var cur: SharedHeap? := head;
      while cur != null
        invariant heapList == old(heapList) && (cur != null ==> cur in heapList)
        invariant !done ==> Heaps() == hs && ManagedHeap(hs, head) == if cur == null then None else ManagedHeap(hs, cur)
        invariant done ==> mapped.Some? && ManagedHeap(hs, head).Some? && Heaps() == ResetStore(hs, head, mapped)
        invariant done && cur != null ==> ManagedCount(hs, cur) == 0
        decreases if cur == null then 0 else Top(false) - hs[cur].start32 + 1
      {
        ResetVisit(hs, head, mapped, cur);
        if cur.heapHandle {
          var again := Repool(cur, mapped);
          if !again {
            return false;
          }
          done := true;
        }
        assert cur in Heaps();
        cur := cur.chainNext;
      }
      return true;
    }

    /** Destroy the pool of a managed heap and create it again. */
    method Repool(cur: SharedHeap, mapped: Option<nat>) returns (ok: bool)
      requires cur in heapList && cur.heapHandle
      modifies cur
      ensures Heaps() == old(Heaps())[cur := Repooled(old(cur.View()), mapped)]
      ensures ok <==> mapped.Some?
    {
      cur.heapHandle := false;
      cur.baseAddr := 0;
      if mapped.None? {
        return false;
      }
      cur.heapHandle := true;
      cur.baseAddr := mapped.value;
      return true;
    }

    /** `wasm_runtime_attach_shared_heap_internal`. */
    method AttachSharedHeap(inst: ModuleInstance, heap: SharedHeap) returns (ok: bool)
      requires Layout(Heaps()) && heap in heapList
      modifies inst`sharedHeap, inst`startOff, inst`endOff, inst`baseAddrAdj, heap
      ensures ok <==> old(AttachAccepted(Heaps(), inst.View(), heap))
      ensures !ok ==> inst.View() == old(inst.View()) && Heaps() == old(Heaps())
      ensures ok ==> Heaps() == old(Heaps())[heap := BumpAttached(old(heap.View()))]
      ensures ok ==> inst.memory != null
                     && Start(old(heap.View()), inst.memory.is64) < UINT64_TOP
                     && inst.View() == Cached(old(inst.View()).(heap := Some(heap)), old(heap.View()), inst.memory.is64)
    {
      var memory := inst.memory;
      if memory == null {
        return false;
      }
      assert Placed(Heaps(), heap);
      if (memory.is64 && memory.size > heap.startOffMem64) || (!memory.is64 && memory.size > heap.startOffMem32) {
        return false;
      }
      if inst.sharedHeap != null {
        return false;
      }
      AttachTo(inst, heap, memory.is64);
      return true;
    }

    method AttachTo(inst: ModuleInstance, heap: SharedHeap, isMemory64: bool)
      requires heap in heapList && Start(heap.View(), isMemory64) < UINT64_TOP
      modifies inst`sharedHeap, inst`startOff, inst`endOff, inst`baseAddrAdj, heap
      ensures Heaps() == old(Heaps())[heap := BumpAttached(old(heap.View()))]
      ensures inst.View() == Cached(old(inst.View()).(heap := Some(heap)), old(heap.View()), isMemory64)
    {
      inst.sharedHeap := heap;
      inst.UpdateLastUsed(heap, isMemory64);
      heap.attachedCount := if heap.attachedCount < 255 then heap.attachedCount + 1 else 0;
    }

    /** `wasm_runtime_detach_shared_heap_internal`. */
    method DetachSharedHeap(inst: ModuleInstance)
      requires inst.sharedHeap != null ==> inst.sharedHeap in heapList
      modifies inst`sharedHeap, inst`startOff, inst`endOff, inst`baseAddrAdj
      modifies if inst.sharedHeap == null then {} else {inst.sharedHeap}
      ensures inst.View() == Detached(old(inst.View()))
      ensures Heaps() == if old(inst.sharedHeap) == null then old(Heaps())
                         else old(Heaps())[old(inst.sharedHeap) := DropAttached(old(inst.sharedHeap.View()))]
    {
      if inst.sharedHeap != null {
        var heap := inst.sharedHeap;
        heap.attachedCount := if heap.attachedCount > 0 then heap.attachedCount - 1 else 255;
      }
      inst.sharedHeap := null;
      inst.startOff := UINT64_MAX;
      inst.endOff := UINT64_MAX - 1;
      inst.baseAddrAdj := 0;
    }

    /** `is_app_addr_in_shared_heap`. */
    method IsAppAddrInSharedHeap(inst: ModuleInstance, appOffset: nat, bytes: nat) returns (hit: bool)
      requires Layout(Heaps()) && InstOk(Heaps(), inst.View())
      modifies inst`startOff, inst`endOff, inst`baseAddrAdj
      ensures (inst.View(), hit) == AppLookup(old(Heaps()), old(inst.View()), appOffset, bytes)
    {
      ghost var hs := Heaps();
      var heap := inst.sharedHeap;
      if heap == null || bytes > APP_HEAP_SIZE_MAX {
        return false;
      }
      var isMemory64 := inst.memory.is64;
      var b := if bytes == 0 then 1 else bytes;
      if Hit(inst.startOff, inst.endOff, appOffset, b) {
        return true;
      }
      var start := if isMemory64 then heap.startOffMem64 else heap.startOffMem32;
      var end := if isMemory64 then UINT64_MAX else UINT32_MAX;
      if !Hit(start, end, appOffset, b) {
        return false;
      }
      hit := WalkAndCache(inst, heap, isMemory64, appOffset, b, hs);
    }

    /** The slow path: walk the chain and remember the heap that was found. */
    method WalkAndCache(inst: ModuleInstance, heap: SharedHeap, isMemory64: bool, appOffset: nat, b: nat,
                        ghost hs: Store<SharedHeap>)
      returns (hit: bool)
      requires hs == Heaps() && Layout(hs) && heap in heapList
      modifies inst`startOff, inst`endOff, inst`baseAddrAdj
      ensures hit == FindApp(hs, heap, isMemory64, appOffset, b).Some?
      ensures hit ==> var c := FindApp(hs, heap, isMemory64, appOffset, b).value;
                      c in hs && Start(hs[c], isMemory64) < UINT64_TOP
                      && inst.View() == Cached(old(inst.View()), hs[c], isMemory64)
      ensures !hit ==> inst.View() == old(inst.View())
    {
      var owner := WalkToApp(heap, isMemory64, appOffset, b);
      if owner == null {
        return false;
      }
      assert Placed(hs, owner);
      inst.UpdateLastUsed(owner, isMemory64);
      return true;
    }

    /** The chain walk of `is_app_addr_in_shared_heap`. */
    method WalkToApp(heap: SharedHeap, isMemory64: bool, appOffset: nat, bytes: nat) returns (cur: SharedHeap?)
      requires Layout(Heaps()) && heap in heapList
      ensures Ref(cur) == FindApp(Heaps(), heap, isMemory64, appOffset, bytes)
      ensures cur != null ==> cur in heapList
    {
      ghost var hs := Heaps();
      cur := heap;
      while cur != null
        invariant cur != null ==> cur in heapList
        invariant FindApp(hs, heap, isMemory64, appOffset, bytes)
                  == if cur == null then None else FindApp(hs, cur, isMemory64, appOffset, bytes)
        decreases if cur == null then 0 else Top(false) - hs[cur].start32 + 1
      {
        assert Placed(hs, cur);
        var start := if isMemory64 then cur.startOffMem64 else cur.startOffMem32;
        var end := Add64(Sub64(start, 1), cur.size);
        if Hit(start, end, appOffset, bytes) {
          return;
        }
        cur := cur.chainNext;
      }
    }

    /** `is_native_addr_in_shared_heap`. */
    method IsNativeAddrInSharedHeap(inst: ModuleInstance, addr: nat, bytes: nat) returns (hit: bool)
      requires Layout(Heaps()) && InstOk(Heaps(), inst.View())
      modifies inst`startOff, inst`endOff, inst`baseAddrAdj
      ensures (inst.View(), hit) == NativeLookup(old(Heaps()), old(inst.View()), addr, bytes)
      ensures hit ==> inst.baseAddrAdj < UINT64_TOP
    {
      ghost var hs := Heaps();
      var heap := inst.sharedHeap;
      if heap == null || bytes > APP_HEAP_SIZE_MAX {
        return false;
      }
      var cur: SharedHeap? := heap;
      while cur != null
        invariant inst.View() == old(inst.View())
        invariant cur != null ==> cur in heapList
        invariant FindNative(hs, heap, addr, bytes) == if cur == null then None else FindNative(hs, cur, addr, bytes)
        decreases if cur == null then 0 else Top(false) - hs[cur].start32 + 1
      {
        assert Placed(hs, cur);
        if addr < cur.baseAddr {
          cur := cur.chainNext;
          continue;
        }
        var endAddr := Add64(addr, bytes);
        if endAddr <= addr {
          cur := cur.chainNext;
          continue;
        }
        if endAddr > Add64(cur.baseAddr, cur.size) {
          cur := cur.chainNext;
          continue;
        }
        inst.UpdateLastUsed(cur, inst.memory.is64);
        return true;
      }
      return false;
    }

    /** `wasm_runtime_addr_app_to_native`; None stands for NULL. */
    method AddrAppToNative(inst: ModuleInstance, appOffset: nat) returns (r: Option<nat>)
      requires Layout(Heaps()) && InstOk(Heaps(), inst.View()) && appOffset < UINT64_TOP
      modifies inst`startOff, inst`endOff, inst`baseAddrAdj
      ensures (inst.View(), r) == AppToNative(old(Heaps()), old(inst.View()), appOffset)
      ensures r.None? <==> !old(Translatable(Heaps(), inst.View(), appOffset))
    {
      AppToNativeNullIff(Heaps(), inst.View(), appOffset);
      var memory := inst.memory;
      if memory == null {
        return None;
      }
      var hit := IsAppAddrInSharedHeap(inst, appOffset, 1);
      if hit {
        return Some(Add64(inst.baseAddrAdj, appOffset));
      }
      var addr := Add64(memory.base, appOffset);
      if memory.base <= addr < memory.end {
        return Some(addr);
      }
      return None;
    }

    /** `wasm_runtime_addr_native_to_app`. */
    method AddrNativeToApp(inst: ModuleInstance, addr: nat) returns (r: nat)
      requires Layout(Heaps()) && InstOk(Heaps(), inst.View()) && addr < UINT64_TOP
      modifies inst`startOff, inst`endOff, inst`baseAddrAdj
      ensures (inst.View(), r) == NativeToApp(old(Heaps()), old(inst.View()), addr)
      ensures !old(Reachable(Heaps(), inst.View(), addr)) ==> r == 0
    {
      if !Reachable(Heaps(), inst.View(), addr) {
        NativeToAppZero(Heaps(), inst.View(), addr);
      }
      var memory := inst.memory;
      if memory == null {
        return 0;
      }
      var hit := IsNativeAddrInSharedHeap(inst, addr, 1);
      if hit {
        return Sub64(addr, inst.baseAddrAdj);
      }
      if memory.base <= addr < memory.end {
        return addr - memory.base;
      }
      return 0;
    }

    /** The walk of shared-heap malloc and free to the runtime-managed heap. */
    method FindManaged(heap: SharedHeap) returns (cur: SharedHeap?)
      requires Layout(Heaps()) && heap in heapList
      ensures Ref(cur) == ManagedHeap(Heaps(), heap)
      ensures cur != null ==> cur in heapList && cur.baseAddr < UINT64_TOP
    {
      ghost var hs := Heaps();
      cur := heap;
      while cur != null && !cur.heapHandle
        invariant cur != null ==> cur in heapList
        invariant ManagedHeap(hs, heap) == if cur == null then None else ManagedHeap(hs, cur)
        decreases if cur == null then 0 else Top(false) - hs[cur].start32 + 1
      {
        assert Placed(hs, cur);
        cur := cur.chainNext;
      }
      if cur != null {
        assert Placed(hs, cur);
      }
    }

    /**
     `wasm_runtime_shared_heap_malloc`: `native` is what the allocator of the
     runtime-managed heap returned, None for NULL.
     */
    method SharedHeapMalloc(inst: ModuleInstance, native: Option<nat>) returns (off: nat)
      requires Layout(Heaps()) && RefOk(Heaps(), inst.View())
      ensures off == Malloc(Heaps(), inst.View(), native)
    {
      var memory, heap := inst.memory, inst.sharedHeap;
      if memory == null || heap == null {
        return 0;
      }
      var managed := FindManaged(heap);
      if managed == null || native.None? {
        return 0;
      }
      off := Add64(if memory.is64 then managed.startOffMem64 else managed.startOffMem32,
                   Sub64(native.value, managed.baseAddr));
    }

    /** `wasm_runtime_shared_heap_free`: the block handed to the allocator, None if there is none. */
    method SharedHeapFree(inst: ModuleInstance, ptr: nat) returns (r: Option<nat>)
      requires Layout(Heaps()) && RefOk(Heaps(), inst.View()) && ptr < UINT64_TOP
      ensures r == Free(Heaps(), inst.View(), ptr)
    {
      var memory, heap := inst.memory, inst.sharedHeap;
      if memory == null || heap == null {
        return None;
      }
      var managed := FindManaged(heap);
      if managed == null {
        return None;
      }
      if memory.is64 {
        if ptr < managed.startOffMem64 {
          return None;
        }
        r := Some(Add64(managed.baseAddr, ptr - managed.startOffMem64));
      } else {
        if ptr < managed.startOffMem32 || ptr > UINT32_MAX {
          return None;
        }
        r := Some(Add64(managed.baseAddr, ptr - managed.startOffMem32));
      }
    }

    // -------------------------------------------------------------------------
    // The same calls on the whole state
    // -------------------------------------------------------------------------

    /** Nothing but one instance and some heaps changed. */
    twostate lemma OneInstanceChanged(inst: ModuleInstance)
      requires instances == old(instances) && inst in instances
      requires forall i | i in instances && i != inst :: i.View() == old(i.View())
      ensures View() == World(Heaps(), old(View()).insts[inst := inst.View()])
    {}

    method PerformCreate(k: SharedHeap, size: nat, page: nat, pre: Option<nat>, mapped: Option<nat>)
      requires k !in heapList && size < UINT32_TOP && 0 < page
      modifies this`heapList, k
      ensures forall h | h in heapList :: h in old(heapList) || h == k
      ensures var h := NewHeap<SharedHeap>(size, page, pre, mapped);
              View() == World(if h.None? then old(Heaps()) else old(Heaps())[k := h.value], old(View()).insts)
    {
      var r := CreateSharedHeap(k, size, page, pre, mapped);
      assert View().insts == old(View()).insts;
      assert Heaps() == if r == null then old(Heaps()) else old(Heaps())[k := r.View()];
    }

    method PerformNewInstance(i: ModuleInstance, mem: Option<LM.Mem>)
      requires i !in instances && Unshared()
      modifies this`instances, i
      ensures instances == old(instances) + {i}
      ensures forall m | m in Memories() :: m == null || m in old(Memories()) || fresh(m)
      ensures Unshared() && View() == World(old(Heaps()), old(View()).insts[i := NewInst(mem)])
    {
      Instantiate(i, mem);
      assert Heaps() == old(Heaps());
      assert View().insts == old(View()).insts[i := NewInst(mem)];
    }

    method PerformChain(head: SharedHeap, body: SharedHeap)
      requires Layout(Heaps()) && head in heapList && body in heapList
      modifies head
      ensures View() == ChainStep(old(View()), head, body)
    {
      var r := ChainSharedHeaps(head, body);
      assert View().insts == old(View()).insts;
    }

    method PerformUnchain(head: SharedHeap, entire: bool)
      requires Layout(Heaps()) && head in heapList
      modifies heapList
      ensures heapList == old(heapList)
      ensures View() == UnchainStep(old(View()), head, entire)
    {
      var r := UnchainSharedHeaps(head, entire);
      assert View().insts == old(View()).insts;
    }

    method PerformReset(head: SharedHeap, mapped: Option<nat>)
      requires Wellformed(Heaps()) && head in heapList
      modifies heapList
      ensures heapList == old(heapList)
      ensures View() == ResetStep(old(View()), head, mapped)
    {
      var ok := ResetSharedHeapChain(head, mapped);
      assert View().insts == old(View()).insts;
    }

    method PerformAttach(inst: ModuleInstance, heap: SharedHeap)
      requires Layout(Heaps()) && inst in instances && heap in heapList
      modifies inst`sharedHeap, inst`startOff, inst`endOff, inst`baseAddrAdj, heap
      ensures Memories() == old(Memories()) && Unshared() == old(Unshared())
      ensures View() == AttachStep(old(View()), inst, heap)
    {
      var ok := AttachSharedHeap(inst, heap);
      OneInstanceChanged(inst);
    }

    method PerformDetach(inst: ModuleInstance)
      requires inst in instances && (inst.sharedHeap != null ==> inst.sharedHeap in heapList)
      modifies inst`sharedHeap, inst`startOff, inst`endOff, inst`baseAddrAdj, heapList
      ensures heapList == old(heapList)
      ensures Memories() == old(Memories()) && Unshared() == old(Unshared())
      ensures View() == DetachStep(old(View()), inst)
    {
      DetachSharedHeap(inst);
      OneInstanceChanged(inst);
    }

    method PerformLookupApp(inst: ModuleInstance, off: nat, bytes: nat)
      requires inst in instances && Layout(Heaps()) && InstOk(Heaps(), inst.View())
      modifies inst`startOff, inst`endOff, inst`baseAddrAdj
      ensures View() == LookupAppStep(old(View()), inst, off, bytes)
    {
      ghost var n := AppLookup(Heaps(), inst.View(), off, bytes).0;
      var hit := IsAppAddrInSharedHeap(inst, off, bytes);
      assert inst.View() == n;
      OneInstanceChanged(inst);
    }

    method PerformLookupNative(inst: ModuleInstance, addr: nat, bytes: nat)
      requires inst in instances && Layout(Heaps()) && InstOk(Heaps(), inst.View())
      modifies inst`startOff, inst`endOff, inst`baseAddrAdj
      ensures View() == LookupNativeStep(old(View()), inst, addr, bytes)
    {
      ghost var n := NativeLookup(Heaps(), inst.View(), addr, bytes).0;
      var hit := IsNativeAddrInSharedHeap(inst, addr, bytes);
      assert inst.View() == n;
      OneInstanceChanged(inst);
    }

    /** `wasm_enlarge_memory`: the floor is the start of the attached chain. */
    method PerformEnlarge(inst: ModuleInstance, inc: nat, env: LM.GrowEnv)
      requires inst in instances && Layout(Heaps()) && InstOk(Heaps(), inst.View())
      requires Unshared() && inc < UINT32_TOP
      modifies if inst.memory == null then {} else {inst.memory}
      ensures View() == EnlargeStep(old(View()), inst, inc, env)
    {
      var memory := inst.memory;
      if memory == null {
        return;
      }
      var floor: Option<nat> := None;
      if inst.sharedHeap != null {
        floor := Some(if memory.is64 then inst.sharedHeap.startOffMem64 else inst.sharedHeap.startOffMem32);
      }
      var ok := memory.Enlarge(inc, floor, env);
      OneInstanceChanged(inst);
    }

    /** The calls that create an object in the storage they name. */
    method PerformOnCreate(op: Op<SharedHeap, ModuleInstance>)
      requires Inv(View()) && Unshared() && Allowed(View(), op) && op.Create?
      modifies this`heapList, op.k
      ensures forall h | h in heapList :: h in old(heapList) || h == op.k
      ensures Memories() == old(Memories()) && Unshared()
      ensures View() == Step(old(View()), op)
    {
      assert op.k !in Heaps();
      PerformCreate(op.k, op.size, op.page, op.pre, op.mapped);
    }

    method PerformOnNewInstance(op: Op<SharedHeap, ModuleInstance>)
      requires Inv(View()) && Unshared() && Allowed(View(), op) && op.NewInstance?
      modifies this`instances, op.i
      ensures instances == old(instances) + {op.i}
      ensures forall m | m in Memories() :: m == null || m in old(Memories()) || fresh(m)
      ensures Unshared() && View() == Step(old(View()), op)
    {
      assert op.i !in View().insts;
      PerformNewInstance(op.i, op.mem);
    }

    /** The calls that relink heaps. */
    method PerformOnChain(op: Op<SharedHeap, ModuleInstance>)
      requires Inv(View()) && Unshared() && Allowed(View(), op) && op.ChainHeaps?
      modifies heapList, instances, Memories()
      ensures heapList == old(heapList) && instances == old(instances)
      ensures Memories() == old(Memories()) && Unshared()
      ensures View() == Step(old(View()), op)
    {
      PerformChain(op.head, op.body);
    }

    method PerformOnUnchain(op: Op<SharedHeap, ModuleInstance>)
      requires Inv(View()) && Unshared() && Allowed(View(), op) && op.UnchainHeaps?
      modifies heapList, instances, Memories()
      ensures heapList == old(heapList) && instances == old(instances)
      ensures Memories() == old(Memories()) && Unshared()
      ensures View() == Step(old(View()), op)
    {
      PerformUnchain(op.head, op.entire);
    }

    method PerformOnReset(op: Op<SharedHeap, ModuleInstance>)
      requires Inv(View()) && Unshared() && Allowed(View(), op) && op.ResetChain?
      modifies heapList, instances, Memories()
      ensures heapList == old(heapList) && instances == old(instances)
      ensures Memories() == old(Memories()) && Unshared()
      ensures View() == Step(old(View()), op)
    {
      PerformReset(op.head, op.mapped);
    }

    /** The calls that attach and detach. */
    method PerformOnAttach(op: Op<SharedHeap, ModuleInstance>)
      requires Inv(View()) && Unshared() && Allowed(View(), op) && op.Attach?
      modifies heapList, instances, Memories()
      ensures heapList == old(heapList) && instances == old(instances)
      ensures Memories() == old(Memories()) && Unshared()
      ensures View() == Step(old(View()), op)
    {
      PerformAttach(op.i, op.k);
    }

    method PerformOnDetach(op: Op<SharedHeap, ModuleInstance>)
      requires Inv(View()) && Unshared() && Allowed(View(), op) && op.Detach?
      modifies heapList, instances, Memories()
      ensures heapList == old(heapList) && instances == old(instances)
      ensures Memories() == old(Memories()) && Unshared()
      ensures View() == Step(old(View()), op)
    {
      assert InstOk(Heaps(), View().insts[op.i]);
      PerformDetach(op.i);
    }

    /** The address lookups. */
    method PerformOnAppLookup(op: Op<SharedHeap, ModuleInstance>)
      requires Inv(View()) && Unshared() && Allowed(View(), op) && op.LookupApp?
      modifies heapList, instances, Memories()
      ensures heapList == old(heapList) && instances == old(instances)
      ensures Memories() == old(Memories()) && Unshared()
      ensures View() == Step(old(View()), op)
    {
      assert InstOk(View().heaps, View().insts[op.i]);
      PerformLookupApp(op.i, op.off, op.bytes);
    }

    method PerformOnNativeLookup(op: Op<SharedHeap, ModuleInstance>)
      requires Inv(View()) && Unshared() && Allowed(View(), op) && op.LookupNative?
      modifies heapList, instances, Memories()
      ensures heapList == old(heapList) && instances == old(instances)
      ensures Memories() == old(Memories()) && Unshared()
      ensures View() == Step(old(View()), op)
    {
      assert InstOk(View().heaps, View().insts[op.i]);
      PerformLookupNative(op.i, op.addr, op.bytes);
    }

    /** Memory growth. */
    method PerformOnGrowth(op: Op<SharedHeap, ModuleInstance>)
      requires Inv(View()) && Unshared() && Allowed(View(), op) && op.Enlarge?
      modifies heapList, instances, Memories()
      ensures heapList == old(heapList) && instances == old(instances)
      ensures Memories() == old(Memories()) && Unshared()
      ensures View() == Step(old(View()), op)
    {
      assert InstOk(View().heaps, View().insts[op.i]);
      PerformEnlarge(op.i, op.inc, op.env);
    }

    /** Any call that creates no object. */
    method PerformOnObjects(op: Op<SharedHeap, ModuleInstance>)
      requires Inv(View()) && Unshared() && Allowed(View(), op) && !op.Create? && !op.NewInstance?
      modifies heapList, instances, Memories()
      ensures heapList == old(heapList) && instances == old(instances)
      ensures Memories() == old(Memories()) && Unshared()
      ensures View() == Step(old(View()), op)
    {
      if op.ChainHeaps? {
        PerformOnChain(op);
      } else if op.UnchainHeaps? {
        PerformOnUnchain(op);
      } else if op.ResetChain? {
        PerformOnReset(op);
      } else if op.Attach? {
        PerformOnAttach(op);
      } else if op.Detach? {
        PerformOnDetach(op);
      } else if op.Enlarge? {
        PerformOnGrowth(op);
      } else if op.LookupApp? {
        PerformOnAppLookup(op);
      } else {
        PerformOnNativeLookup(op);
      }
    }

    /** Any call. A creating call names the storage the new object gets. */
    method Perform(op: Op<SharedHeap, ModuleInstance>)
      requires Inv(View()) && Unshared() && Allowed(View(), op)
      modifies this, heapList, instances, Memories(), NewHeaps([op]), NewInstances([op])
      ensures forall h | h in heapList :: h in old(heapList) || h in NewHeaps([op])
      ensures forall i | i in instances :: i in old(instances) || i in NewInstances([op])
      ensures forall m | m in Memories() :: m == null || m in old(Memories()) || fresh(m)
      ensures Unshared() && View() == Step(old(View()), op)
    {
      assert op in [op];
      match op {
        case Create(_, _, _, _, _) => PerformOnCreate(op);
        case NewInstance(_, _) => PerformOnNewInstance(op);
        case _ => PerformOnObjects(op);
      }
    }

    /** A whole run of calls on the objects, creation included, is a run of the state machine. */
    method PerformAll(ops: seq<Op<SharedHeap, ModuleInstance>>)
      requires Inv(View()) && Unshared() && RunAllowed(View(), ops)
      modifies this, heapList, instances, Memories(), NewHeaps(ops), NewInstances(ops)
      ensures View() == Run(old(View()), ops) && Inv(View()) && Unshared()
    {
      var at := 0;
      while at < |ops|
        invariant at <= |ops|
        invariant forall h | h in heapList :: h in old(heapList) || h in NewHeaps(ops)
        invariant forall i | i in instances :: i in old(instances) || i in NewInstances(ops)
        invariant forall m | m in Memories() :: m == null || m in old(Memories()) || fresh(m)
        invariant Unshared() && Inv(View()) && RunAllowed(View(), ops[at..])
        invariant Run(View(), ops[at..]) == Run(old(View()), ops)
      {
        ghost var w := View();
        assert ops[at..][0] == ops[at] && ops[at..][1..] == ops[at + 1..];
        StepKeepsInv(w, ops[at]);
        assert ops[at] in ops;
        Perform(ops[at]);
        at := at + 1;
      }
    }
  }

  /** The storage of the heaps and of the instances that a run creates. */
  ghost function NewHeaps(ops: seq<Op<SharedHeap, ModuleInstance>>): set<SharedHeap> {
    set op | op in ops && op.Create? :: op.k
  }

  ghost function NewInstances(ops: seq<Op<SharedHeap, ModuleInstance>>): set<ModuleInstance> {
    set op | op in ops && op.NewInstance? :: op.i
  }

  ghost function Last<T>(s: seq<T>): T
    requires s != []
  {
    s[|s| - 1]
  }

  /** A heap of the chain does not occur earlier in it. */
  lemma {:induction false} NotBefore<H>(hs: Store<H>, k: H, at: nat)
    requires k in hs && Layout(hs) && at < |Chain(hs, k)|
    ensures Chain(hs, k)[at] !in Chain(hs, k)[..at]
  {
    forall j | 0 <= j < at ensures Chain(hs, k)[j] != Chain(hs, k)[at] {
      ChainDisjoint(hs, k, j, at);
    }
  }

  /** The store after the heaps `ks` have been reset to stand alone. */
  ghost function AllReset<H>(hs: Store<H>, ks: seq<H>): (r: Store<H>)
    requires forall k | k in hs :: hs[k].size <= Top(false)
  {
    map k | k in hs :: if k in ks then Alone(hs[k]) else hs[k]
  }

  lemma SmallEnough<H>(hs: Store<H>)
    requires Layout(hs)
    ensures forall k | k in hs :: hs[k].size <= Top(false)
  {
    forall k | k in hs ensures hs[k].size <= Top(false) {
      assert Placed(hs, k);
    }
  }

  lemma AllResetNext<H>(hs: Store<H>, ks: seq<H>, x: H)
    requires x in hs && forall k | k in hs :: hs[k].size <= Top(false)
    ensures AllReset(hs, ks + [x]) == AllReset(hs, ks)[x := Alone(hs[x])]
  {}

  /** One round of the unchain loop at a heap that has a successor. */
  lemma {:induction false} UnchainRound<H>(hs: Store<H>, head: H, at: nat)
    requires head in hs && Layout(hs) && at < |Chain(hs, head)| && hs[Chain(hs, head)[at]].next.Some?
    requires forall k | k in hs :: hs[k].size <= Top(false)
    ensures var c := Chain(hs, head);
            && at + 1 < |c| && hs[c[at]].next == Some(c[at + 1])
            && AllReset(hs, c[..at + 1]) == AllReset(hs, c[..at])[c[at] := Alone(hs[c[at]])]
            && AllReset(hs, c[..at + 1])[c[at + 1]] == hs[c[at + 1]]
  {
    var c := Chain(hs, head);
    ChainTiles(hs, head, at);
    AllResetNext(hs, c[..at], c[at]);
    assert c[..at + 1] == c[..at] + [c[at]];
    NotBefore(hs, head, at + 1);
  }

  /** What one visit of the reset walk finds out about the heap it stands on. */
  lemma {:induction false} ResetVisit<H>(hs: Store<H>, head: H, mapped: Option<nat>, cur: H)
    requires Wellformed(hs) && head in hs && cur in hs
    ensures Placed(hs, cur) && hs[cur].size <= Top(false)
    ensures hs[cur].next.Some? ==> hs[cur].next.value in hs && hs[cur].start32 < hs[hs[cur].next.value].start32
    ensures ManagedHeap(hs, cur) == if hs[cur].managed then Some(cur) else if hs[cur].next.None? then None
                                    else ManagedHeap(hs, hs[cur].next.value)
    ensures hs[cur].managed && hs[cur].next.Some? ==> ManagedCount(hs, hs[cur].next.value) == 0
    ensures ManagedCount(hs, cur) == 0 ==> !hs[cur].managed
    ensures ManagedCount(hs, cur) == 0 && hs[cur].next.Some? ==> ManagedCount(hs, hs[cur].next.value) == 0
    ensures ManagedHeap(hs, head) == Some(cur) ==> ResetStore(hs, head, mapped) == hs[cur := Repooled(hs[cur], mapped)]
    ensures ManagedHeap(hs, head).Some? ==>
              ResetStore(hs, head, mapped).Keys == hs.Keys && ResetStore(hs, head, mapped)[cur].next == hs[cur].next
              && (!hs[cur].managed ==> !ResetStore(hs, head, mapped)[cur].managed)
  {
    assert Placed(hs, cur);
    if hs[cur].next.Some? {
      assert Placed(hs, hs[cur].next.value);
    }
    if ManagedHeap(hs, head).Some? {
      ManagedHeapOnChain(hs, head);
    }
  }

  lemma {:induction false} UnchainedHead<H>(hs: Store<H>, head: H)
    requires head in hs && Layout(hs) && forall k | k in hs :: hs[k].size <= Top(false)
    ensures AllReset(hs, Chain(hs, head)[..1]) == Unchained(hs, head, false)
  {
    assert Chain(hs, head)[..1] == [head];
  }

  /** The last heap of a chain need not be reset: it stands at the top already. */
  lemma {:induction false} UnchainedAll<H>(hs: Store<H>, head: H, at: nat)
    requires head in hs && Layout(hs) && at < |Chain(hs, head)| && hs[Chain(hs, head)[at]].next.None?
    requires forall k | k in hs :: hs[k].size <= Top(false)
    ensures at == |Chain(hs, head)| - 1
    ensures AllReset(hs, Chain(hs, head)[..at]) == Unchained(hs, head, true)
  {
    hide Chain;
    var c := Chain(hs, head);
    ChainTiles(hs, head, at);
    assert c == c[..at] + [c[at]];
    assert Placed(hs, c[at]);
    assert Alone(hs[c[at]]) == hs[c[at]];
    assert head in c;
  }
}
