/**
 The shared-heap API as a state machine: a store of heaps and a set of module
 instances, each with its linear memory, the chain it is attached to and a
 cached window onto the heap it used last. `H` and `I` are the pointer types.
 */
module SharedHeapWorld {
  import opened Machine
  import opened SharedHeapSpec
  import LM = LinearMemory

  /** `winStart`, `winEnd` and `adj` are the "last used shared heap" cache. */
  datatype Inst<H> = Inst(mem: Option<LM.Mem>, heap: Option<H>, winStart: nat, winEnd: nat, adj: nat)

  datatype World<!H, !I> = World(heaps: Store<H>, insts: map<I, Inst<H>>)

  datatype Op<H, I> =
    | Create(k: H, size: nat, page: nat, pre: Option<nat>, mapped: Option<nat>)
    | ChainHeaps(head: H, body: H)
    | UnchainHeaps(head: H, entire: bool)
    | ResetChain(head: H, mapped: Option<nat>)
    | NewInstance(i: I, mem: Option<LM.Mem>)
    | Attach(i: I, k: H)
    | Detach(i: I)
    | LookupApp(i: I, off: nat, bytes: nat)
    | LookupNative(i: I, addr: nat, bytes: nat)
    | Enlarge(i: I, inc: nat, env: LM.GrowEnv)

  // ---------------------------------------------------------------------------
  // The cache and the two lookups, as the code computes them
  // ---------------------------------------------------------------------------

  /** `update_last_used_shared_heap`. */
  function Cached<H>(n: Inst<H>, h: Heap<H>, is64: bool): Inst<H>
    requires Start(h, is64) < UINT64_TOP
  {
    n.(winStart := Start(h, is64),
       winEnd := Add64(Sub64(Start(h, is64), 1), h.size),
       adj := Sub64(h.base, Start(h, is64)))
  }

  /** The range test on a window; `bytes` is at least 1. */
  predicate Hit(start: nat, end: nat, off: nat, bytes: nat) {
    bytes - 1 <= end && start <= off <= end - bytes + 1
  }

  /** The chain walk of `is_app_addr_in_shared_heap`. */
  ghost function FindApp<H>(hs: Store<H>, k: H, is64: bool, off: nat, bytes: nat): (r: Option<H>)
    requires k in hs && Layout(hs)
    decreases Top(false) - hs[k].start32
  {
    assert Placed(hs, k);
    var start := Start(hs[k], is64);
    if Hit(start, Add64(Sub64(start, 1), hs[k].size), off, bytes) then Some(k)
    else if hs[k].next.None? then None
    else FindApp(hs, hs[k].next.value, is64, off, bytes)
  }

  /** The native address range test of `is_native_addr_in_shared_heap`. */
  predicate NativeHit(h: Heap, addr: nat, bytes: nat) {
    h.base <= addr && Add64(addr, bytes) > addr && Add64(addr, bytes) <= Add64(h.base, h.size)
  }

  ghost function FindNative<H>(hs: Store<H>, k: H, addr: nat, bytes: nat): (r: Option<H>)
    requires k in hs && Layout(hs)
    decreases Top(false) - hs[k].start32
  {
    assert Placed(hs, k);
    if NativeHit(hs[k], addr, bytes) then Some(k)
    else if hs[k].next.None? then None
    else FindNative(hs, hs[k].next.value, addr, bytes)
  }

  /** `is_app_addr_in_shared_heap`: the instance afterwards and the answer. */
  ghost function AppLookup<H>(hs: Store<H>, n: Inst<H>, off: nat, bytes: nat): (r: (Inst<H>, bool))
    requires Layout(hs) && (n.heap.Some? ==> n.heap.value in hs && n.mem.Some?)
  {
    if n.heap.None? || bytes > APP_HEAP_SIZE_MAX then (n, false)
    else
      var k, is64 := n.heap.value, n.mem.value.is64;
      var b := if bytes == 0 then 1 else bytes;
      if Hit(n.winStart, n.winEnd, off, b) then (n, true)
      else if !Hit(Start(hs[k], is64), Top(is64) - 1, off, b) then (n, false)
      else
        match FindApp(hs, k, is64, off, b)
        case None => (n, false)
        case Some(c) => FindAppSpec(hs, k, is64, off, b); assert Placed(hs, c); (Cached(n, hs[c], is64), true)
  }

  /** `is_native_addr_in_shared_heap`. */
  ghost function NativeLookup<H>(hs: Store<H>, n: Inst<H>, addr: nat, bytes: nat): (r: (Inst<H>, bool))
    requires Layout(hs) && (n.heap.Some? ==> n.heap.value in hs && n.mem.Some?)
  {
    if n.heap.None? || bytes > APP_HEAP_SIZE_MAX then (n, false)
    else
      match FindNative(hs, n.heap.value, addr, bytes)
      case None => (n, false)
      case Some(c) =>
        FindNativeSpec(hs, n.heap.value, addr, bytes); assert Placed(hs, c);
        (Cached(n, hs[c], n.mem.value.is64), true)
  }

  lemma {:induction false} FindAppSpec<H>(hs: Store<H>, k: H, is64: bool, off: nat, bytes: nat)
    requires k in hs && Layout(hs) && 0 < bytes
    ensures var r := FindApp(hs, k, is64, off, bytes);
            && (r.Some? ==> r.value in Chain(hs, k) && InHeap(hs[r.value], is64, off, bytes))
            && (r.None? ==> !InChain(hs, k, is64, off, bytes))
    decreases Top(false) - hs[k].start32
  {
    assert Placed(hs, k);
    HitIsContainment(hs, k, is64, off, bytes);
    if hs[k].next.Some? {
      FindAppSpec(hs, hs[k].next.value, is64, off, bytes);
    }
  }

  /** The unsigned window test is containment in the heap, with no wrap-around surprises. */
  lemma HitIsContainment<H>(hs: Store<H>, k: H, is64: bool, off: nat, bytes: nat)
    requires k in hs && Layout(hs) && 0 < bytes
    ensures Start(hs[k], is64) + hs[k].size <= Top(is64)
    ensures Add64(Sub64(Start(hs[k], is64), 1), hs[k].size) == Start(hs[k], is64) + hs[k].size - 1
    ensures Hit(Start(hs[k], is64), Add64(Sub64(Start(hs[k], is64), 1), hs[k].size), off, bytes)
            <==> InHeap(hs[k], is64, off, bytes)
  {
    assert Placed(hs, k);
    if hs[k].next.Some? {
      assert Placed(hs, hs[k].next.value);
    }
  }

  /** Heap `j` of the chain is the first that contains the native range. */
  ghost predicate FirstHit<H>(hs: Store<H>, k: H, addr: nat, bytes: nat, j: nat)
    requires k in hs && Layout(hs)
  {
    && j < |Chain(hs, k)| && NativeHit(hs[Chain(hs, k)[j]], addr, bytes)
    && forall i | 0 <= i < j :: !NativeHit(hs[Chain(hs, k)[i]], addr, bytes)
  }

  lemma {:induction false} FindNativeFirst<H>(hs: Store<H>, k: H, addr: nat, bytes: nat) returns (j: nat)
    requires k in hs && Layout(hs) && FindNative(hs, k, addr, bytes).Some?
    ensures FirstHit(hs, k, addr, bytes, j) && Chain(hs, k)[j] == FindNative(hs, k, addr, bytes).value
    decreases Top(false) - hs[k].start32
  {
    assert Placed(hs, k);
    if NativeHit(hs[k], addr, bytes) {
      j := 0;
    } else {
      var i := FindNativeFirst(hs, hs[k].next.value, addr, bytes);
      FirstHitAfter(hs, k, addr, bytes, i);
      j := i + 1;
    }
  }

  lemma {:induction false} FindNativeNone<H>(hs: Store<H>, k: H, addr: nat, bytes: nat)
    requires k in hs && Layout(hs) && FindNative(hs, k, addr, bytes).None?
    ensures forall c | c in Chain(hs, k) :: !NativeHit(hs[c], addr, bytes)
    decreases Top(false) - hs[k].start32
  {
    assert Placed(hs, k);
    if hs[k].next.Some? {
      FindNativeNone(hs, hs[k].next.value, addr, bytes);
    }
  }

  /** The native walk returns the first heap of the chain that contains the range, if there is one. */
  lemma {:induction false} FindNativeSpec<H>(hs: Store<H>, k: H, addr: nat, bytes: nat)
    requires k in hs && Layout(hs)
    ensures var r := FindNative(hs, k, addr, bytes);
            && (r.Some? ==> r.value in Chain(hs, k) && NativeHit(hs[r.value], addr, bytes))
            && (r.Some? ==> exists j: nat :: FirstHit(hs, k, addr, bytes, j) && Chain(hs, k)[j] == r.value)
            && (r.None? ==> forall c | c in Chain(hs, k) :: !NativeHit(hs[c], addr, bytes))
  {
    if FindNative(hs, k, addr, bytes).Some? {
      var j := FindNativeFirst(hs, k, addr, bytes);
    } else {
      FindNativeNone(hs, k, addr, bytes);
    }
  }

  lemma {:induction false} FirstHitAfter<H>(hs: Store<H>, k: H, addr: nat, bytes: nat, j: nat)
    requires k in hs && Layout(hs) && !NativeHit(hs[k], addr, bytes)
    requires hs[k].next.Some? && hs[k].next.value in hs && FirstHit(hs, hs[k].next.value, addr, bytes, j)
    ensures FirstHit(hs, k, addr, bytes, j + 1) && Chain(hs, k)[j + 1] == Chain(hs, hs[k].next.value)[j]
  {
    assert Chain(hs, k) == [k] + Chain(hs, hs[k].next.value);
  }

  // ---------------------------------------------------------------------------
  // The invariant
  // ---------------------------------------------------------------------------

  /** The cached window of `n` is the window of heap `h`. */
  ghost predicate WindowIs<H>(n: Inst<H>, h: Heap<H>, is64: bool) {
    && Start(h, is64) < UINT64_TOP
    && n.winStart == Start(h, is64)
    && n.winEnd == Start(h, is64) + h.size - 1
    && n.adj == Sub64(h.base, Start(h, is64))
  }

  ghost predicate InstOk<H>(hs: Store<H>, n: Inst<H>)
    requires Layout(hs)
  {
    && (n.mem.Some? ==> LM.Valid(n.mem.value))
    && (n.heap.Some? ==>
          && n.mem.Some?
          && n.heap.value in hs
          && First(hs, n.heap.value)
          // linear memory ends below the whole attached chain
          && n.mem.value.size <= Start(hs[n.heap.value], n.mem.value.is64)
          // the cached window is that of some heap of the attached chain
          && exists c :: c in Chain(hs, n.heap.value) && WindowIs(n, hs[c], n.mem.value.is64))
  }

  /** The least that every call needs of an instance: a valid memory, and an existing heap. */
  ghost predicate RefOk<H>(hs: Store<H>, n: Inst<H>) {
    && (n.mem.Some? ==> LM.Valid(n.mem.value))
    && (n.heap.Some? ==> n.heap.value in hs && n.mem.Some?)
  }

  /** A state in which every call is defined, whatever the counters and caches say. */
  ghost predicate Sane<H, I>(w: World<H, I>) {
    Wellformed(w.heaps) && forall i | i in w.insts :: RefOk(w.heaps, w.insts[i])
  }

  ghost function AttachedTo<H, I>(insts: map<I, Inst<H>>, k: H): set<I> {
    set i | i in insts && insts[i].heap == Some(k)
  }

  ghost predicate InstsOk<H, I>(hs: Store<H>, insts: map<I, Inst<H>>)
    requires Layout(hs)
  {
    forall i | i in insts :: InstOk(hs, insts[i])
  }

  /** The attach counter of every heap is the number of instances attached to it. */
  ghost predicate Counted<H, I>(hs: Store<H>, insts: map<I, Inst<H>>) {
    forall k | k in hs :: hs[k].attached == |AttachedTo(insts, k)|
  }

  ghost predicate Inv<H, I>(w: World<H, I>) {
    && Wellformed(w.heaps)
    && InstsOk(w.heaps, w.insts)
    && Counted(w.heaps, w.insts)
  }

  // ---------------------------------------------------------------------------
  // Steps
  // ---------------------------------------------------------------------------

  lemma InvIsSane<H, I>(w: World<H, I>)
    requires Inv(w)
    ensures Sane(w)
  {
    forall i | i in w.insts ensures RefOk(w.heaps, w.insts[i]) {
      assert InstOk(w.heaps, w.insts[i]);
    }
  }

  /** What every call needs to be defined. */
  ghost predicate Callable<H, I>(w: World<H, I>, op: Op<H, I>)
    requires Layout(w.heaps)
  {
    match op
    case Create(k, size, page, pre, mapped) =>
      && k !in w.heaps && size < UINT32_TOP && 0 < page
      && (pre.Some? ==> 0 < pre.value && pre.value + AlignUint(size, page) < UINT64_TOP)
      && (mapped.Some? ==> 0 < mapped.value && mapped.value + AlignUint(size, page) < UINT64_TOP)
    case ChainHeaps(head, body) =>
      && head in w.heaps && body in w.heaps && head != body
      && (ChainAccepted(w.heaps, head, body) ==> w.heaps[head].size <= w.heaps[body].start32)
    case UnchainHeaps(head, entire) => head in w.heaps && First(w.heaps, head)
    case ResetChain(head, mapped) => head in w.heaps && MappingFits(w.heaps, head, mapped)
    case NewInstance(i, mem) => i !in w.insts && (mem.Some? ==> LM.Valid(mem.value))
    case Attach(i, k) => i in w.insts && k in w.heaps
    case Detach(i) => i in w.insts
    case LookupApp(i, off, bytes) => i in w.insts && off < UINT64_TOP && bytes < UINT64_TOP
    case LookupNative(i, addr, bytes) => i in w.insts && addr < UINT64_TOP && bytes < UINT64_TOP
    case Enlarge(i, inc, env) =>
      && i in w.insts && inc < UINT32_TOP
      && (w.insts[i].mem.Some? ==>
            var m := w.insts[i].mem.value;
            && LM.EnvOk(env, m.pageBytes * m.maxPages)
            && (env.fullSizeMapped ==> m.base + m.pageBytes * m.maxPages < UINT64_TOP))
  }

  /** The same, on first heaps only and with room in the 8-bit counter. */
  ghost predicate Allowed<H, I>(w: World<H, I>, op: Op<H, I>)
    requires Layout(w.heaps)
  {
    && Callable(w, op)
    && (op.Attach? ==> First(w.heaps, op.k) && |AttachedTo(w.insts, op.k)| < 255)
    && (op.ResetChain? ==> First(w.heaps, op.head))
  }

  /** `wasm_runtime_attach_shared_heap_internal`. */
  predicate AttachAccepted<H>(hs: Store<H>, n: Inst<H>, k: H)
    requires k in hs
  {
    n.mem.Some? && n.mem.value.size <= Start(hs[k], n.mem.value.is64) && n.heap.None?
  }

  function BumpAttached<H>(h: Heap<H>): Heap<H> {
    h.(attached := if h.attached < 255 then h.attached + 1 else 0)
  }

  function DropAttached<H>(h: Heap<H>): Heap<H> {
    h.(attached := if h.attached > 0 then h.attached - 1 else 255)
  }

  /** `wasm_runtime_detach_shared_heap_internal`, the instance's side. */
  function Detached<H>(n: Inst<H>): Inst<H> {
    n.(heap := None, winStart := UINT64_MAX, winEnd := UINT64_MAX - 1, adj := 0)
  }

  /** A new instance has no chain, and a window start that no access reaches. */
  function NewInst<H>(mem: Option<LM.Mem>): Inst<H> {
    Inst(mem, None, UINT64_MAX, 0, 0)
  }

  ghost function Floor<H>(hs: Store<H>, n: Inst<H>): Option<nat>
    requires n.heap.Some? ==> n.heap.value in hs && n.mem.Some?
  {
    if n.heap.None? then None else Some(Start(hs[n.heap.value], n.mem.value.is64))
  }

  ghost function ChainStep<H, I>(w: World<H, I>, head: H, body: H): (r: World<H, I>)
    requires Layout(w.heaps) && head in w.heaps && body in w.heaps
  {
    assert Placed(w.heaps, head);
    if ChainAccepted(w.heaps, head, body) then w.(heaps := Chained(w.heaps, head, body)) else w
  }

  ghost function UnchainStep<H, I>(w: World<H, I>, head: H, entire: bool): (r: World<H, I>)
    requires Layout(w.heaps) && head in w.heaps
  {
    if w.heaps[head].next.None? || w.heaps[head].attached != 0 then w
    else w.(heaps := Unchained(w.heaps, head, entire))
  }

  ghost function ResetStep<H, I>(w: World<H, I>, head: H, mapped: Option<nat>): (r: World<H, I>)
    requires Layout(w.heaps) && head in w.heaps
  {
    if w.heaps[head].attached != 0 then w else w.(heaps := ResetStore(w.heaps, head, mapped))
  }

  ghost function AttachStep<H, I>(w: World<H, I>, i: I, k: H): (r: World<H, I>)
    requires Layout(w.heaps) && i in w.insts && k in w.heaps
  {
    var n := w.insts[i];
    assert Placed(w.heaps, k);
    if !AttachAccepted(w.heaps, n, k) then w
    else World(w.heaps[k := BumpAttached(w.heaps[k])],
               w.insts[i := Cached(n.(heap := Some(k)), w.heaps[k], n.mem.value.is64)])
  }

  ghost function DetachStep<H, I>(w: World<H, I>, i: I): (r: World<H, I>)
    requires i in w.insts && (w.insts[i].heap.Some? ==> w.insts[i].heap.value in w.heaps)
  {
    var n := w.insts[i];
    World(if n.heap.None? then w.heaps else w.heaps[n.heap.value := DropAttached(w.heaps[n.heap.value])],
          w.insts[i := Detached(n)])
  }

  ghost function LookupAppStep<H, I>(w: World<H, I>, i: I, off: nat, bytes: nat): (r: World<H, I>)
    requires Layout(w.heaps) && i in w.insts && RefOk(w.heaps, w.insts[i])
  {
    w.(insts := w.insts[i := AppLookup(w.heaps, w.insts[i], off, bytes).0])
  }

  ghost function LookupNativeStep<H, I>(w: World<H, I>, i: I, addr: nat, bytes: nat): (r: World<H, I>)
    requires Layout(w.heaps) && i in w.insts && RefOk(w.heaps, w.insts[i])
  {
    w.(insts := w.insts[i := NativeLookup(w.heaps, w.insts[i], addr, bytes).0])
  }

  ghost function EnlargeStep<H, I>(w: World<H, I>, i: I, inc: nat, env: LM.GrowEnv): (r: World<H, I>)
    requires Layout(w.heaps) && i in w.insts && RefOk(w.heaps, w.insts[i])
  {
    var n := w.insts[i];
    if n.mem.None? then w
    else w.(insts := w.insts[i := n.(mem := Some(LM.Grow(n.mem.value, inc, Floor(w.heaps, n), env).0))])
  }

  /** The state after a call. */
  ghost function Effect<H, I>(w: World<H, I>, op: Op<H, I>): (r: World<H, I>)
    requires Sane(w) && Callable(w, op)
  {
    match op
    case Create(k, size, page, pre, mapped) =>
      var h := NewHeap(size, page, pre, mapped);
      if h.None? then w else w.(heaps := w.heaps[k := h.value])
    case ChainHeaps(head, body) => ChainStep(w, head, body)
    case UnchainHeaps(head, entire) => UnchainStep(w, head, entire)
    case ResetChain(head, mapped) => ResetStep(w, head, mapped)
    case NewInstance(i, mem) => w.(insts := w.insts[i := NewInst(mem)])
    case Attach(i, k) => AttachStep(w, i, k)
    case Detach(i) => DetachStep(w, i)
    case LookupApp(i, off, bytes) => LookupAppStep(w, i, off, bytes)
    case LookupNative(i, addr, bytes) => LookupNativeStep(w, i, addr, bytes)
    case Enlarge(i, inc, env) => EnlargeStep(w, i, inc, env)
  }

  /** One step of a run that keeps the whole invariant. */
  ghost function Step<H, I>(w: World<H, I>, op: Op<H, I>): (r: World<H, I>)
    requires Inv(w) && Allowed(w, op)
  {
    InvIsSane(w);
    Effect(w, op)
  }
}
