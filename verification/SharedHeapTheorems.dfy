/** What holds in every reachable state of the shared-heap API, and across whole runs. */
module SharedHeapTheorems {
  import opened Machine
  import opened SharedHeapSpec
  import opened SharedHeapWorld
  import opened SharedHeapRuns
  import LM = LinearMemory

  // ---------------------------------------------------------------------------
  // Runs
  // ---------------------------------------------------------------------------

  ghost predicate RunAllowed<H, I>(w: World<H, I>, ops: seq<Op<H, I>>)
    requires Inv(w)
    decreases |ops|
  {
    if ops == [] then true
    else if !Allowed(w, ops[0]) then false
    else StepKeepsInv(w, ops[0]); RunAllowed(Step(w, ops[0]), ops[1..])
  }

  ghost function Run<H, I>(w: World<H, I>, ops: seq<Op<H, I>>): (r: World<H, I>)
    requires Inv(w) && RunAllowed(w, ops)
    decreases |ops|
  {
    if ops == [] then w else StepKeepsInv(w, ops[0]); Run(Step(w, ops[0]), ops[1..])
  }

  /**
   Any run of create, chain, unchain, reset, attach, detach, lookups and memory growth
   ends in a state that satisfies the whole invariant.
   */
  lemma {:induction false} RunKeepsInv<H, I>(w: World<H, I>, ops: seq<Op<H, I>>)
    requires Inv(w) && RunAllowed(w, ops)
    ensures Inv(Run(w, ops))
    decreases |ops|
  {
    if ops != [] {
      StepKeepsInv(w, ops[0]);
      RunKeepsInv(Step(w, ops[0]), ops[1..]);
    }
  }

  /** Before any call there are no heaps and no instances. */
  ghost function EmptyWorld<H, I>(): (w: World<H, I>)
    ensures Inv(w)
  {
    World(map[], map[])
  }

  /** So the invariant holds in every state that can be reached from nothing. */
  lemma {:induction false} ReachableInv<H, I>(ops: seq<Op<H, I>>)
    requires RunAllowed(EmptyWorld<H, I>(), ops)
    ensures Inv(Run(EmptyWorld<H, I>(), ops))
  {
    RunKeepsInv(EmptyWorld<H, I>(), ops);
  }

  /** In a reachable state, linear memory and the attached chain share no app address. */
  lemma NoOverlap<H, I>(w: World<H, I>, i: I, off: nat, bytes: nat)
    requires Inv(w) && i in w.insts && w.insts[i].heap.Some?
    ensures InstOk(w.heaps, w.insts[i])
    ensures InChain(w.heaps, w.insts[i].heap.value, w.insts[i].mem.value.is64, off, bytes)
            ==> w.insts[i].mem.value.size <= off
  {
    assert InstOk(w.heaps, w.insts[i]);
    var hs, k, is64 := w.heaps, w.insts[i].heap.value, w.insts[i].mem.value.is64;
    forall c | c in Chain(hs, k) ensures Start(hs[k], is64) <= Start(hs[c], is64) {
      assert Placed(hs, c) && Placed(hs, k);
    }
  }

  // ---------------------------------------------------------------------------
  // Address translation
  // ---------------------------------------------------------------------------

  predicate InLinear(m: LM.Mem, addr: nat) {
    m.base <= addr < m.end
  }

  predicate InNative(h: Heap, addr: nat) {
    h.base <= addr < h.base + h.size
  }

  /** `wasm_runtime_addr_app_to_native`, with None for NULL. */
  ghost function AppToNative<H>(hs: Store<H>, n: Inst<H>, off: nat): (r: (Inst<H>, Option<nat>))
    requires Layout(hs) && InstOk(hs, n) && off < UINT64_TOP
    ensures InstOk(hs, r.0) && r.0.heap == n.heap && r.0.mem == n.mem
  {
    if n.mem.None? then (n, None)
    else
      AppLookupTransparent(hs, n, off, 1);
      var (n', hit) := AppLookup(hs, n, off, 1);
      if hit then (n', Some(Add64(n'.adj, off)))
      else
        var addr := Add64(n.mem.value.base, off);
        (n', if InLinear(n.mem.value, addr) then Some(addr) else None)
  }

  /** `wasm_runtime_addr_native_to_app`. */
  ghost function NativeToApp<H>(hs: Store<H>, n: Inst<H>, addr: nat): (r: (Inst<H>, nat))
    requires Layout(hs) && InstOk(hs, n) && addr < UINT64_TOP
    ensures InstOk(hs, r.0) && r.0.heap == n.heap && r.0.mem == n.mem
  {
    if n.mem.None? then (n, 0)
    else
      NativeLookupKeeps(hs, n, addr, 1);
      var (n', hit) := NativeLookup(hs, n, addr, 1);
      if hit then (n', Sub64(addr, n'.adj))
      else (n', if InLinear(n.mem.value, addr) then addr - n.mem.value.base else 0)
  }

  lemma NativeHitIsContainment<H>(hs: Store<H>, c: H, addr: nat)
    requires c in hs && Layout(hs) && addr < UINT64_TOP
    ensures NativeHit(hs[c], addr, 1) <==> InNative(hs[c], addr)
  {
    assert Placed(hs, c);
  }

  /** App ranges are disjoint, so at most one heap of a chain contains an address. */
  lemma {:induction false} SameOwner<H>(hs: Store<H>, k: H, is64: bool, off: nat, c: H, d: H)
    requires k in hs && Layout(hs) && c in Chain(hs, k) && d in Chain(hs, k)
    requires InHeap(hs[c], is64, off, 1) && InHeap(hs[d], is64, off, 1)
    ensures c == d
  {
    var i :| 0 <= i < |Chain(hs, k)| && Chain(hs, k)[i] == c;
    var j :| 0 <= j < |Chain(hs, k)| && Chain(hs, k)[j] == d;
    if i != j {
      ChainDisjoint(hs, k, i, j);
    }
  }

  /** Heap `j` of the chain is the first that holds the native byte. */
  ghost predicate FirstOwner<H>(hs: Store<H>, k: H, addr: nat, j: nat)
    requires k in hs && Layout(hs)
  {
    && j < |Chain(hs, k)| && InNative(hs[Chain(hs, k)[j]], addr)
    && forall i | 0 <= i < j :: !InNative(hs[Chain(hs, k)[i]], addr)
  }

  lemma FirstHitOwns<H>(hs: Store<H>, k: H, addr: nat, j: nat)
    requires k in hs && Layout(hs) && addr < UINT64_TOP
    ensures FirstHit(hs, k, addr, 1, j) <==> FirstOwner(hs, k, addr, j)
  {
    forall i | 0 <= i < |Chain(hs, k)|
      ensures NativeHit(hs[Chain(hs, k)[i]], addr, 1) <==> InNative(hs[Chain(hs, k)[i]], addr)
    {
      NativeHitIsContainment(hs, Chain(hs, k)[i], addr);
    }
  }

  lemma {:induction false} OwnerSpec<H>(hs: Store<H>, k: H, addr: nat)
    requires k in hs && Layout(hs) && addr < UINT64_TOP
    ensures var r := FindNative(hs, k, addr, 1);
            && (r.Some? ==> r.value in Chain(hs, k) && InNative(hs[r.value], addr))
            && (r.Some? ==> exists j: nat :: FirstOwner(hs, k, addr, j) && Chain(hs, k)[j] == r.value)
            && (r.None? ==> forall c | c in Chain(hs, k) :: !InNative(hs[c], addr))
  {
    if FindNative(hs, k, addr, 1).Some? {
      var j := FindNativeFirst(hs, k, addr, 1);
      FirstHitOwns(hs, k, addr, j);
    } else {
      FindNativeNone(hs, k, addr, 1);
      forall c | c in Chain(hs, k) ensures !InNative(hs[c], addr) {
        NativeHitIsContainment(hs, c, addr);
      }
    }
  }

  /** The heap a native byte is translated through: the first of the chain that contains it. */
  ghost function NativeOwner<H>(hs: Store<H>, n: Inst<H>, addr: nat): (r: Option<H>)
    requires Layout(hs) && InstOk(hs, n) && addr < UINT64_TOP
    ensures r.Some? ==> n.heap.Some? && r.value in Chain(hs, n.heap.value) && InNative(hs[r.value], addr)
    ensures r.Some? ==> exists j: nat :: FirstOwner(hs, n.heap.value, addr, j) && Chain(hs, n.heap.value)[j] == r.value
    ensures r.None? && n.heap.Some? ==> forall c | c in Chain(hs, n.heap.value) :: !InNative(hs[c], addr)
  {
    if n.heap.None? then None
    else
      OwnerSpec(hs, n.heap.value, addr);
      FindNative(hs, n.heap.value, addr, 1)
  }

  /** There is only one first heap. */
  lemma {:induction false} OwnerIff<H>(hs: Store<H>, n: Inst<H>, addr: nat, j: nat)
    requires Layout(hs) && InstOk(hs, n) && n.heap.Some? && addr < UINT64_TOP && j < |Chain(hs, n.heap.value)|
    ensures NativeOwner(hs, n, addr) == Some(Chain(hs, n.heap.value)[j]) <==> FirstOwner(hs, n.heap.value, addr, j)
  {
    var k := n.heap.value;
    var r := NativeOwner(hs, n, addr);
    if r.Some? {
      var i: nat :| FirstOwner(hs, k, addr, i) && Chain(hs, k)[i] == r.value;
      if i != j {
        ChainDisjoint(hs, k, i, j);
      }
    }
  }

  /** Subtracting the cached adjustment moves a native byte of the heap into its app range. */
  lemma AdjustedOffset<H>(hs: Store<H>, c: H, is64: bool, addr: nat)
    requires c in hs && Layout(hs) && InNative(hs[c], addr) && addr < UINT64_TOP
    ensures Start(hs[c], is64) < UINT64_TOP
    ensures Sub64(hs[c].base, Start(hs[c], is64)) <= UINT64_TOP
    ensures var off := Sub64(addr, Sub64(hs[c].base, Start(hs[c], is64)));
            off == Start(hs[c], is64) + (addr - hs[c].base) && off < UINT64_TOP && InHeap(hs[c], is64, off, 1)
  {
    HitIsContainment(hs, c, is64, 0, 1);
    assert Placed(hs, c);
  }

  lemma NativeToAppOwned<H>(hs: Store<H>, n: Inst<H>, addr: nat)
    requires Layout(hs) && InstOk(hs, n) && addr < UINT64_TOP && NativeOwner(hs, n, addr).Some?
    ensures var c := NativeOwner(hs, n, addr).value;
            && NativeToApp(hs, n, addr).1 == Start(hs[c], n.mem.value.is64) + (addr - hs[c].base)
            && InHeap(hs[c], n.mem.value.is64, NativeToApp(hs, n, addr).1, 1)
            && NativeToApp(hs, n, addr).1 < UINT64_TOP
  {
    AdjustedOffset(hs, NativeOwner(hs, n, addr).value, n.mem.value.is64, addr);
  }

  lemma NativeToAppUnowned<H>(hs: Store<H>, n: Inst<H>, addr: nat)
    requires Layout(hs) && InstOk(hs, n) && n.mem.Some? && InLinear(n.mem.value, addr) && NativeOwner(hs, n, addr).None?
    ensures NativeToApp(hs, n, addr).1 == addr - n.mem.value.base
  {}

  /** An app address of the chain is translated through the one heap that contains it. */
  lemma {:induction false} AppToNativeOwned<H>(hs: Store<H>, n: Inst<H>, off: nat, c: H)
    requires Layout(hs) && InstOk(hs, n) && n.heap.Some? && off < UINT64_TOP
    requires c in Chain(hs, n.heap.value) && InHeap(hs[c], n.mem.value.is64, off, 1)
    ensures AppToNative(hs, n, off).1 == Some(hs[c].base + (off - Start(hs[c], n.mem.value.is64)))
    ensures InNative(hs[c], AppToNative(hs, n, off).1.value) && AppToNative(hs, n, off).1.value < UINT64_TOP
  {
    hide Chain, FindApp;
    var d := AttachedLookup(hs, n, off, 1);
    SameOwner(hs, n.heap.value, n.mem.value.is64, off, c, d.value);
    assert Placed(hs, c);
  }

  /** An offset inside linear memory is not taken for a shared-heap address. */
  lemma AppToNativeLinear<H>(hs: Store<H>, n: Inst<H>, off: nat)
    requires Layout(hs) && InstOk(hs, n) && n.mem.Some? && off < n.mem.value.size
    ensures AppToNative(hs, n, off).1 == Some(n.mem.value.base + off)
  {
    AppLookupTransparent(hs, n, off, 1);
    if n.heap.Some? {
      var k, is64 := n.heap.value, n.mem.value.is64;
      forall c | c in Chain(hs, k) ensures !InHeap(hs[c], is64, off, 1) {
        assert Placed(hs, c) && Placed(hs, k);
      }
    }
  }

  /** An app address that stands for a native byte: one of linear memory or of a heap of the chain. */
  ghost predicate Translatable<H>(hs: Store<H>, n: Inst<H>, off: nat)
    requires Layout(hs) && RefOk(hs, n)
  {
    n.mem.Some? && (off < n.mem.value.size
                    || (n.heap.Some? && InChain(hs, n.heap.value, n.mem.value.is64, off, 1)))
  }

  /** Every other address gives NULL, and no other one does. */
  lemma {:induction false} AppToNativeNullIff<H>(hs: Store<H>, n: Inst<H>, off: nat)
    requires Layout(hs) && InstOk(hs, n) && off < UINT64_TOP
    ensures AppToNative(hs, n, off).1.None? <==> !Translatable(hs, n, off)
  {
    hide AppLookup;
    if n.mem.Some? {
      AppLookupTransparent(hs, n, off, 1);
    }
  }

  /** A native address that some app address of the instance stands for. */
  ghost predicate Reachable<H>(hs: Store<H>, n: Inst<H>, addr: nat)
    requires Layout(hs) && RefOk(hs, n)
  {
    n.mem.Some? && (InLinear(n.mem.value, addr)
                    || (n.heap.Some? && exists c :: c in Chain(hs, n.heap.value) && InNative(hs[c], addr)))
  }

  /** Every other address gives 0. */
  lemma {:induction false} NativeToAppZero<H>(hs: Store<H>, n: Inst<H>, addr: nat)
    requires Layout(hs) && InstOk(hs, n) && addr < UINT64_TOP && !Reachable(hs, n, addr)
    ensures NativeToApp(hs, n, addr).1 == 0
  {
    assert NativeOwner(hs, n, addr).None?;
  }

  lemma NativeRoundTripOwned<H>(hs: Store<H>, n: Inst<H>, p: nat)
    requires Layout(hs) && InstOk(hs, n) && p < UINT64_TOP && NativeOwner(hs, n, p).Some?
    ensures NativeToApp(hs, n, p).1 < UINT64_TOP
    ensures AppToNative(hs, NativeToApp(hs, n, p).0, NativeToApp(hs, n, p).1).1 == Some(p)
  {
    NativeToAppOwned(hs, n, p);
    var (n1, off) := NativeToApp(hs, n, p);
    AppToNativeOwned(hs, n1, off, NativeOwner(hs, n, p).value);
  }

  /** Every native byte of linear memory or of the chain survives the round trip through app space. */
  lemma {:induction false} NativeRoundTrip<H>(hs: Store<H>, n: Inst<H>, p: nat)
    requires Layout(hs) && InstOk(hs, n) && n.mem.Some? && p < UINT64_TOP
    requires InLinear(n.mem.value, p)
             || (n.heap.Some? && exists c :: c in Chain(hs, n.heap.value) && InNative(hs[c], p))
    ensures NativeToApp(hs, n, p).1 < UINT64_TOP
    ensures AppToNative(hs, NativeToApp(hs, n, p).0, NativeToApp(hs, n, p).1).1 == Some(p)
  {
    if NativeOwner(hs, n, p).Some? {
      NativeRoundTripOwned(hs, n, p);
    } else {
      NativeToAppUnowned(hs, n, p);
      var (n1, off) := NativeToApp(hs, n, p);
      AppToNativeLinear(hs, n1, off);
    }
  }

  /**
   The other direction, exactly: an app address of heap `j` of the chain comes
   back if and only if no earlier heap holds the native byte behind it.
   */
  lemma {:induction false} AppRoundTripIff<H>(hs: Store<H>, n: Inst<H>, off: nat, j: nat)
    requires Layout(hs) && InstOk(hs, n) && n.heap.Some? && off < UINT64_TOP && j < |Chain(hs, n.heap.value)|
    requires InHeap(hs[Chain(hs, n.heap.value)[j]], n.mem.value.is64, off, 1)
    ensures var (n1, p) := AppToNative(hs, n, off);
            && p.Some? && p.value < UINT64_TOP
            && (NativeToApp(hs, n1, p.value).1 == off
                <==> forall i | 0 <= i < j :: !InNative(hs[Chain(hs, n.heap.value)[i]], p.value))
  {
    var c := Chain(hs, n.heap.value)[j];
    AppToNativeOwned(hs, n, off, c);
    var (n1, p) := AppToNative(hs, n, off);
    ReturnsToOwner(hs, n1, off, c, p.value);
    OwnerIff(hs, n1, p.value, j);
  }

  /** The native byte behind an address of heap `c` leads back to it exactly when `c` owns the byte. */
  lemma {:induction false} ReturnsToOwner<H>(hs: Store<H>, n: Inst<H>, off: nat, c: H, p: nat)
    requires Layout(hs) && InstOk(hs, n) && n.heap.Some? && c in Chain(hs, n.heap.value)
    requires InHeap(hs[c], n.mem.value.is64, off, 1) && p < UINT64_TOP && InNative(hs[c], p)
    requires p == hs[c].base + (off - Start(hs[c], n.mem.value.is64))
    ensures NativeToApp(hs, n, p).1 == off <==> NativeOwner(hs, n, p) == Some(c)
  {
    NativeToAppOwned(hs, n, p);
    if NativeToApp(hs, n, p).1 == off {
      SameOwner(hs, n.heap.value, n.mem.value.is64, off, c, NativeOwner(hs, n, p).value);
    }
  }

  /** An offset of linear memory comes back if and only if no heap of the chain holds the native byte behind it. */
  lemma {:induction false} LinearRoundTripIff<H>(hs: Store<H>, n: Inst<H>, off: nat)
    requires Layout(hs) && InstOk(hs, n) && n.mem.Some? && off < n.mem.value.size
    ensures off < UINT64_TOP && n.mem.value.base + off < UINT64_TOP
    ensures AppToNative(hs, n, off).1 == Some(n.mem.value.base + off)
    ensures NativeToApp(hs, AppToNative(hs, n, off).0, n.mem.value.base + off).1 == off
            <==> (n.heap.Some? ==>
                    forall c | c in Chain(hs, n.heap.value) :: !InNative(hs[c], n.mem.value.base + off))
  {
    hide NativeToApp, NativeLookup, AppLookup, FindApp, FindNative, Chain;
    AppToNativeLinear(hs, n, off);
    var n1, p := AppToNative(hs, n, off).0, n.mem.value.base + off;
    if NativeOwner(hs, n1, p).Some? {
      NativeToAppOwned(hs, n1, p);
      AboveMemory(hs, n1, NativeOwner(hs, n1, p).value, NativeToApp(hs, n1, p).1);
    } else {
      NativeToAppUnowned(hs, n1, p);
    }
  }

  /** Every address of the chain lies at or above the end of linear memory. */
  lemma {:induction false} AboveMemory<H>(hs: Store<H>, n: Inst<H>, c: H, off: nat)
    requires Layout(hs) && InstOk(hs, n) && n.heap.Some? && c in Chain(hs, n.heap.value)
    requires InHeap(hs[c], n.mem.value.is64, off, 1)
    ensures n.mem.value.size <= off
  {
    assert Placed(hs, c) && Placed(hs, n.heap.value);
  }

  /** The native buffers of the chain and of linear memory do not overlap. */
  ghost predicate NativeDisjoint<H>(hs: Store<H>, n: Inst<H>)
    requires Layout(hs) && InstOk(hs, n) && n.mem.Some?
  {
    n.heap.Some? ==>
      && (forall c, p: nat | c in Chain(hs, n.heap.value) && InNative(hs[c], p) :: !InLinear(n.mem.value, p))
      && (forall c, d, p: nat | c in Chain(hs, n.heap.value) && d in Chain(hs, n.heap.value) && InNative(hs[c], p)
            :: InNative(hs[d], p) ==> c == d)
  }

  lemma {:induction false} AppRoundTripShared<H>(hs: Store<H>, n: Inst<H>, off: nat, j: nat)
    requires Layout(hs) && InstOk(hs, n) && n.mem.Some? && NativeDisjoint(hs, n) && off < UINT64_TOP
    requires n.heap.Some? && j < |Chain(hs, n.heap.value)|
    requires InHeap(hs[Chain(hs, n.heap.value)[j]], n.mem.value.is64, off, 1)
    ensures var (n1, p) := AppToNative(hs, n, off);
            p.Some? && p.value < UINT64_TOP && NativeToApp(hs, n1, p.value).1 == off
  {
    AppToNativeOwned(hs, n, off, Chain(hs, n.heap.value)[j]);
    DisjointFirst(hs, n, j, AppToNative(hs, n, off).1.value);
    AppRoundTripIff(hs, n, off, j);
  }

  lemma AppRoundTripLinear<H>(hs: Store<H>, n: Inst<H>, off: nat)
    requires Layout(hs) && InstOk(hs, n) && n.mem.Some? && NativeDisjoint(hs, n) && off < n.mem.value.size
    ensures off < UINT64_TOP
    ensures var (n1, p) := AppToNative(hs, n, off);
            p.Some? && p.value < UINT64_TOP && NativeToApp(hs, n1, p.value).1 == off
  {
    hide NativeToApp, NativeLookup, AppToNative, AppLookup, FindApp, FindNative, Chain;
    LinearRoundTripIff(hs, n, off);
    assert InLinear(n.mem.value, n.mem.value.base + off);
  }

  /** With disjoint native buffers every usable app address survives the round trip. */
  lemma AppRoundTrip<H>(hs: Store<H>, n: Inst<H>, off: nat)
    requires Layout(hs) && InstOk(hs, n) && n.mem.Some? && NativeDisjoint(hs, n) && off < UINT64_TOP
    requires off < n.mem.value.size || (n.heap.Some? && InChain(hs, n.heap.value, n.mem.value.is64, off, 1))
    ensures var (n1, p) := AppToNative(hs, n, off);
            p.Some? && p.value < UINT64_TOP && NativeToApp(hs, n1, p.value).1 == off
  {
    if off < n.mem.value.size {
      AppRoundTripLinear(hs, n, off);
    } else {
      var j := OwnerIndex(hs, n.heap.value, n.mem.value.is64, off);
      AppRoundTripShared(hs, n, off, j);
    }
  }

  lemma OwnerIndex<H>(hs: Store<H>, k: H, is64: bool, off: nat) returns (j: nat)
    requires Layout(hs) && k in hs && InChain(hs, k, is64, off, 1)
    ensures j < |Chain(hs, k)| && InHeap(hs[Chain(hs, k)[j]], is64, off, 1)
  {
    var c :| c in Chain(hs, k) && InHeap(hs[c], is64, off, 1);
    j :| 0 <= j < |Chain(hs, k)| && Chain(hs, k)[j] == c;
  }

  lemma {:induction false} DisjointFirst<H>(hs: Store<H>, n: Inst<H>, j: nat, p: nat)
    requires Layout(hs) && InstOk(hs, n) && n.mem.Some? && NativeDisjoint(hs, n) && n.heap.Some?
    requires j < |Chain(hs, n.heap.value)| && InNative(hs[Chain(hs, n.heap.value)[j]], p)
    ensures forall i | 0 <= i < j :: !InNative(hs[Chain(hs, n.heap.value)[i]], p)
  {
    forall i | 0 <= i < j ensures !InNative(hs[Chain(hs, n.heap.value)[i]], p) {
      ChainDisjoint(hs, n.heap.value, i, j);
    }
  }

  // ---------------------------------------------------------------------------
  // Shared-heap malloc and free across a run
  // ---------------------------------------------------------------------------

  lemma {:induction false} ManagedHeapFrame<H>(hs: Store<H>, hs': Store<H>, k: H)
    requires k in hs && k in hs' && Layout(hs) && Layout(hs')
    requires forall c | c in Chain(hs, k) :: c in hs' && hs'[c].(attached := 0) == hs[c].(attached := 0)
    ensures ManagedHeap(hs', k) == ManagedHeap(hs, k)
    decreases Top(false) - hs[k].start32
  {
    assert Placed(hs, k) && Placed(hs', k);
    assert k in Chain(hs, k);
    if hs[k].next.Some? {
      ManagedHeapFrame(hs, hs', hs[k].next.value);
    }
  }

  /**
   The offset `wasm_runtime_shared_heap_malloc` returns to an instance attached
   to `k` for a block the allocator placed at `native`.
   */
  ghost function MallocOffset<H>(hs: Store<H>, k: H, is64: bool, native: nat): (off: nat)
    requires Layout(hs) && k in hs && ManagedHeap(hs, k).Some?
  {
    ManagedHeapOnChain(hs, k);
    assert Placed(hs, ManagedHeap(hs, k).value);
    var h := hs[ManagedHeap(hs, k).value];
    Add64(Start(h, is64), Sub64(native, h.base))
  }

  /** The address `wasm_runtime_shared_heap_free` hands to the allocator, if it does. */
  ghost function FreeAddress<H>(hs: Store<H>, k: H, is64: bool, ptr: nat): (r: Option<nat>)
    requires Layout(hs) && k in hs
  {
    if ManagedHeap(hs, k).None? then None
    else
      ManagedHeapOnChain(hs, k);
      var h := hs[ManagedHeap(hs, k).value];
      if ptr < Start(h, is64) || (!is64 && ptr > UINT32_MAX) then None
      else Some(Add64(h.base, ptr - Start(h, is64)))
  }

  /** `wasm_runtime_shared_heap_malloc` for an instance; 0 stands for failure. */
  ghost function Malloc<H>(hs: Store<H>, n: Inst<H>, native: Option<nat>): (off: nat)
    requires Layout(hs) && RefOk(hs, n)
  {
    if n.mem.None? || n.heap.None? || ManagedHeap(hs, n.heap.value).None? || native.None? then 0
    else MallocOffset(hs, n.heap.value, n.mem.value.is64, native.value)
  }

  /** `wasm_runtime_shared_heap_free` for an instance. */
  ghost function Free<H>(hs: Store<H>, n: Inst<H>, ptr: nat): (r: Option<nat>)
    requires Layout(hs) && RefOk(hs, n)
  {
    if n.mem.None? || n.heap.None? then None else FreeAddress(hs, n.heap.value, n.mem.value.is64, ptr)
  }

  /** `native` is a block of the runtime-managed heap of `k`'s chain. */
  ghost predicate ManagedBlock<H>(hs: Store<H>, k: H, native: nat)
    requires Layout(hs) && k in hs
  {
    ManagedHeap(hs, k).Some? && (ManagedHeapOnChain(hs, k); InNative(hs[ManagedHeap(hs, k).value], native))
  }

  /** Heap `j` is the first of the chain that the runtime manages. */
  ghost predicate FirstManaged<H>(hs: Store<H>, k: H, j: nat)
    requires Layout(hs) && k in hs
  {
    && j < |Chain(hs, k)| && hs[Chain(hs, k)[j]].managed
    && forall i | 0 <= i < j :: !hs[Chain(hs, k)[i]].managed
  }

  lemma {:induction false} FirstManagedIs<H>(hs: Store<H>, k: H, j: nat)
    requires Layout(hs) && k in hs && FirstManaged(hs, k, j)
    ensures ManagedHeap(hs, k) == Some(Chain(hs, k)[j])
    decreases j
  {
    assert Placed(hs, k);
    var all := Chain(hs, k);
    if j > 0 {
      assert !hs[all[0]].managed;
      var next := hs[k].next.value;
      var rest := Chain(hs, next);
      assert all == [k] + rest;
      forall i | 0 <= i < j - 1 ensures !hs[rest[i]].managed {
        assert all[i + 1] == rest[i];
      }
      FirstManagedIs(hs, next, j - 1);
    }
  }

  lemma {:induction false} NoneManaged<H>(hs: Store<H>, k: H)
    requires Layout(hs) && k in hs && forall c | c in Chain(hs, k) :: !hs[c].managed
    ensures ManagedHeap(hs, k).None?
  {
    if ManagedHeap(hs, k).Some? {
      ManagedIsManaged(hs, k);
      ManagedHeapOnChain(hs, k);
    }
  }

  lemma {:induction false} ManagedIsManaged<H>(hs: Store<H>, k: H)
    requires Layout(hs) && k in hs && ManagedHeap(hs, k).Some?
    ensures ManagedHeap(hs, k).value in hs && hs[ManagedHeap(hs, k).value].managed
    decreases Top(false) - hs[k].start32
  {
    assert Placed(hs, k);
    if !hs[k].managed {
      ManagedIsManaged(hs, hs[k].next.value);
    }
  }

  /**
   A reset that no user of the head forbids gives the first managed heap of the
   chain its new pool, or takes its handle away when there is none; a chain without
   a managed heap stays as it is, and so does everything else.
   */
  lemma {:induction false} ResetIs<H, I>(w: World<H, I>, head: H, mapped: Option<nat>, j: nat)
    requires Inv(w) && Allowed(w, ResetChain(head, mapped)) && j <= |Chain(w.heaps, head)|
    requires if j < |Chain(w.heaps, head)| then FirstManaged(w.heaps, head, j)
             else forall c | c in Chain(w.heaps, head) :: !w.heaps[c].managed
    ensures Step(w, ResetChain(head, mapped))
            == if w.heaps[head].attached != 0 || j == |Chain(w.heaps, head)| then w
               else
                 var c := Chain(w.heaps, head)[j];
                 var h := w.heaps[c];
                 w.(heaps := w.heaps[c := if mapped.Some? then h.(base := mapped.value)
                                          else h.(base := 0, managed := false)])
  {
    if j < |Chain(w.heaps, head)| {
      FirstManagedIs(w.heaps, head, j);
    } else {
      NoneManaged(w.heaps, head);
    }
  }

  /** Heap `h` moved to the top of both address spaces, with no successor. */
  ghost predicate AtTop<H>(h: Heap<H>, h': Heap<H>) {
    && h' == h.(start32 := h'.start32, start64 := h'.start64, next := None)
    && h'.start32 + h.size == 0x1_0000_0000 && h'.start64 + h.size == 0x1_0000_0000_0000_0000
  }

  /** Unchaining an unused head with a successor puts it, or every heap of its chain, back to the top. */
  lemma {:induction false} UnchainIs<H, I>(w: World<H, I>, head: H, entire: bool)
    requires Inv(w) && Allowed(w, UnchainHeaps(head, entire))
    ensures var w' := Step(w, UnchainHeaps(head, entire));
            if w.heaps[head].next.None? || w.heaps[head].attached != 0 then w' == w
            else
              && w'.insts == w.insts && w'.heaps.Keys == w.heaps.Keys
              && forall k | k in w.heaps ::
                   if k == head || (entire && k in Chain(w.heaps, head)) then AtTop(w.heaps[k], w'.heaps[k])
                   else w'.heaps[k] == w.heaps[k]
  {
    hide Chain, First, ManagedCount;
    var w' := Step(w, UnchainHeaps(head, entire));
    if w.heaps[head].next.Some? && w.heaps[head].attached == 0 {
      forall k | k in w.heaps
        ensures if k == head || (entire && k in Chain(w.heaps, head)) then AtTop(w.heaps[k], w'.heaps[k])
                else w'.heaps[k] == w.heaps[k]
      {
        assert Placed(w.heaps, k);
      }
    }
  }

  /** Chaining that is accepted puts the head directly below the body; otherwise nothing changes. */
  lemma {:induction false} ChainIs<H, I>(w: World<H, I>, head: H, body: H)
    requires Inv(w) && Allowed(w, ChainHeaps(head, body))
    ensures var (hs, w') := (w.heaps, Step(w, ChainHeaps(head, body)));
            if ChainAccepted(hs, head, body) then
              && w' == w.(heaps := hs[head := w'.heaps[head]])
              && w'.heaps[head] == hs[head].(start32 := w'.heaps[head].start32, start64 := w'.heaps[head].start64,
                                             next := Some(body))
              && w'.heaps[head].start32 + hs[head].size == hs[body].start32
              && w'.heaps[head].start64 + hs[head].size == hs[body].start64
            else w' == w
  {
    hide Chain, First, ManagedCount, ChainAccepted;
    assert Placed(w.heaps, head) && Placed(w.heaps, body);
  }

  /**
   Growth of a memory in the world: granted within the page limit and, for an
   instance with a chain, below its first heap. Nothing else in the world changes.
   */
  lemma {:induction false} EnlargeIs<H, I>(w: World<H, I>, i: I, inc: nat, env: LM.GrowEnv)
    requires Inv(w) && Allowed(w, Enlarge(i, inc, env)) && w.insts[i].mem.Some?
    ensures var (n, w') := (w.insts[i], Step(w, Enlarge(i, inc, env)));
            && w' == w.(insts := w.insts[i := n.(mem := w'.insts[i].mem)]) && w'.insts[i].mem.Some?
            && (w'.insts[i].mem.value.curPages == n.mem.value.curPages + inc
                <==> || inc == 0
                     || (&& LM.Granted(n.mem.value, inc, None, env)
                         && (n.heap.Some? ==>
                               n.mem.value.pageBytes * (n.mem.value.curPages + inc)
                               <= Start(w.heaps[n.heap.value], n.mem.value.is64))))
  {
    hide Chain, First, ManagedCount, Layout;
    InstIsRefOk(w, i);
    LM.GrowIff(w.insts[i].mem.value, inc, Floor(w.heaps, w.insts[i]), env);
  }

  /** The linear memory of the instance ends at or below the first address of heap `k`. */
  ghost predicate EndsBelow<H>(n: Inst<H>, h: Heap<H>) {
    n.mem.Some? && n.mem.value.pageBytes * n.mem.value.curPages <= if n.mem.value.is64 then h.start64 else h.start32
  }

  /**
   An instance without a chain is attached if and only if its memory ends below
   the heap; the heap then counts one more user, and the window is that heap. In
   every other case nothing changes.
   */
  lemma {:induction false} AttachIff<H, I>(w: World<H, I>, i: I, k: H)
    requires Inv(w) && Allowed(w, Attach(i, k))
    ensures var (n, h, w') := (w.insts[i], w.heaps[k], Step(w, Attach(i, k)));
            if n.heap.None? && EndsBelow(n, h) then
              && w' == World(w.heaps[k := h.(attached := h.attached + 1)], w.insts[i := w'.insts[i]])
              && w'.insts[i].heap == Some(k) && w'.insts[i].mem == n.mem
              && w'.insts[i].winStart == Start(h, n.mem.value.is64)
              && w'.insts[i].winEnd + 1 == w'.insts[i].winStart + h.size
            else w' == w
  {
    assert InstOk(w.heaps, w.insts[i]);
    HitIsContainment(w.heaps, k, true, 0, 1);
    HitIsContainment(w.heaps, k, false, 0, 1);
  }

  /** A detach takes the chain away, and one user from its first heap. */
  lemma {:induction false} DetachIs<H, I>(w: World<H, I>, i: I)
    requires Inv(w) && Allowed(w, Detach(i))
    ensures var (n, w') := (w.insts[i], Step(w, Detach(i)));
            && w'.insts[i].heap.None? && w'.insts[i].mem == n.mem && w' == World(w'.heaps, w.insts[i := w'.insts[i]])
            && (n.heap.None? ==> w'.heaps == w.heaps)
            && (n.heap.Some? ==>
                  var (k, h) := (n.heap.value, w.heaps[n.heap.value]);
                  h.attached > 0 && w'.heaps == w.heaps[k := h.(attached := h.attached - 1)])
  {
    assert InstOk(w.heaps, w.insts[i]);
    if w.insts[i].heap.Some? {
      assert i in AttachedTo(w.insts, w.insts[i].heap.value);
    }
  }

  /** Without a memory, an attached chain or a managed heap in it there is nothing to allocate or to free. */
  lemma {:induction false} NothingToAllocate<H>(hs: Store<H>, n: Inst<H>, native: Option<nat>, ptr: nat)
    requires Layout(hs) && RefOk(hs, n)
    requires n.mem.None? || n.heap.None? || forall c | c in Chain(hs, n.heap.value) :: !hs[c].managed
    ensures Malloc(hs, n, native) == 0 && Free(hs, n, ptr).None?
  {
    if n.mem.Some? && n.heap.Some? {
      NoneManaged(hs, n.heap.value);
    }
  }

  /** A block of the first managed heap of the chain is named by its distance from the start of that heap. */
  lemma {:induction false} MallocNames<H>(hs: Store<H>, n: Inst<H>, j: nat, native: nat)
    requires Layout(hs) && RefOk(hs, n) && n.heap.Some? && FirstManaged(hs, n.heap.value, j)
    requires InNative(hs[Chain(hs, n.heap.value)[j]], native)
    ensures var (h, off) := (hs[Chain(hs, n.heap.value)[j]], Malloc(hs, n, Some(native)));
            off == Start(h, n.mem.value.is64) + (native - h.base) && InHeap(h, n.mem.value.is64, off, 1)
    ensures Malloc(hs, n, None) == 0
  {
    FirstManagedIs(hs, n.heap.value, j);
    assert Placed(hs, Chain(hs, n.heap.value)[j]);
  }

  /**
   Free passes on every address from the start of that heap to the top of the
   address space, and what it passes on is a block of the heap if and only if the
   address lies in it: an address in a later heap of the chain is passed on too.
   */
  lemma {:induction false} FreeHandsOn<H>(hs: Store<H>, n: Inst<H>, j: nat, ptr: nat)
    requires Layout(hs) && RefOk(hs, n) && n.heap.Some? && FirstManaged(hs, n.heap.value, j) && ptr < UINT64_TOP
    ensures var (h, is64, r) := (hs[Chain(hs, n.heap.value)[j]], n.mem.value.is64, Free(hs, n, ptr));
            && (r.Some? <==> Start(h, is64) <= ptr < Top(is64))
            && (r.Some? && InNative(h, r.value) <==> InHeap(h, is64, ptr, 1))
            && (InHeap(h, is64, ptr, 1) ==> r == Some(h.base + (ptr - Start(h, is64))))
  {
    FirstManagedIs(hs, n.heap.value, j);
    assert Placed(hs, Chain(hs, n.heap.value)[j]);
  }

  /** Creating, chaining and unchaining leave an attached chain alone. */
  lemma CreateKeepsAttachedChain<H, I>(w: World<H, I>, op: Op<H, I>, i: I, k: H)
    requires Inv(w) && Allowed(w, op) && op.Create? && i in w.insts && w.insts[i].heap == Some(k) && k in w.heaps
    ensures Layout(Step(w, op).heaps) && SameChain(w.heaps, Step(w, op).heaps, k)
  {
    assert InstOk(w.heaps, w.insts[i]);
    var h: Option<Heap<H>> := NewHeap(op.size, op.page, op.pre, op.mapped);
    if h.Some? {
      CreateElsewhere(w.heaps, op.k, h.value, k);
    }
  }

  lemma ChainKeepsAttachedChain<H, I>(w: World<H, I>, op: Op<H, I>, i: I, k: H)
    requires Inv(w) && Allowed(w, op) && i in w.insts && w.insts[i].heap == Some(k) && k in w.heaps
    requires op.ChainHeaps? || op.UnchainHeaps? || op.ResetChain?
    ensures Layout(Step(w, op).heaps) && SameChain(w.heaps, Step(w, op).heaps, k)
  {
    assert InstOk(w.heaps, w.insts[i]);
    AttachedIsCounted(w.heaps, w.insts, i);
    match op
    case ChainHeaps(head, body) =>
      if ChainAccepted(w.heaps, head, body) {
        ChainElsewhere(w.heaps, head, body, k);
      }
    case UnchainHeaps(head, entire) =>
      if w.heaps[head].next.Some? && w.heaps[head].attached == 0 {
        UnchainElsewhere(w.heaps, head, entire, k);
      }
    case ResetChain(head, mapped) =>
      if w.heaps[head].attached == 0 {
        ResetElsewhere(w.heaps, head, mapped, k);
      }
  }

  /** Attaching and detaching only count. */
  lemma CountStepKeepsChains<H, I>(w: World<H, I>, op: Op<H, I>, k: H)
    requires Inv(w) && Allowed(w, op) && k in w.heaps && (op.Attach? || op.Detach?)
    ensures Layout(Step(w, op).heaps) && SameChain(w.heaps, Step(w, op).heaps, k)
  {
    match op
    case Attach(j, x) =>
      if AttachAccepted(w.heaps, w.insts[j], x) {
        assert Placed(w.heaps, x);
        CounterFrame(w.heaps, x, BumpAttached(w.heaps[x]));
      }
    case Detach(j) =>
      if w.insts[j].heap.Some? {
        assert InstOk(w.heaps, w.insts[j]);
        assert Placed(w.heaps, w.insts[j].heap.value);
        CounterFrame(w.heaps, w.insts[j].heap.value, DropAttached(w.heaps[w.insts[j].heap.value]));
      }
  }

  /** While `i` is not detached, no call moves the chain it is attached to. */
  lemma StepKeepsAttachedChain<H, I>(w: World<H, I>, op: Op<H, I>, i: I)
    requires Inv(w) && Allowed(w, op) && i in w.insts && w.insts[i].heap.Some? && w.insts[i].heap.value in w.heaps
    ensures Layout(Step(w, op).heaps) && SameChain(w.heaps, Step(w, op).heaps, w.insts[i].heap.value)
  {
    if op.Create? {
      CreateKeepsAttachedChain(w, op, i, w.insts[i].heap.value);
    } else if op.ChainHeaps? || op.UnchainHeaps? || op.ResetChain? {
      ChainKeepsAttachedChain(w, op, i, w.insts[i].heap.value);
    } else if op.Attach? || op.Detach? {
      CountStepKeepsChains(w, op, w.insts[i].heap.value);
    }
  }

  /** And `i` stays attached to it, with the same kind of memory. */
  ghost predicate StaysAttached<H>(n: Inst<H>, n': Inst<H>) {
    n'.heap == n.heap && n.mem.Some? && n'.mem.Some? && n'.mem.value.is64 == n.mem.value.is64
  }

  lemma LookupKeepsAttachment<H, I>(w: World<H, I>, op: Op<H, I>, i: I)
    requires Inv(w) && Allowed(w, op) && (op.LookupApp? || op.LookupNative?) && i in w.insts && w.insts[i].heap.Some?
    ensures i in Step(w, op).insts && StaysAttached(w.insts[i], Step(w, op).insts[i])
  {
    assert InstOk(w.heaps, w.insts[i]);
    match op
    case LookupApp(j, off, bytes) => AppLookupTransparent(w.heaps, w.insts[j], off, bytes);
    case LookupNative(j, addr, bytes) => NativeLookupKeeps(w.heaps, w.insts[j], addr, bytes);
  }

  lemma InstanceStepKeepsAttachment<H, I>(w: World<H, I>, op: Op<H, I>, i: I)
    requires Inv(w) && Allowed(w, op) && op != Detach(i) && i in w.insts && w.insts[i].heap.Some?
    requires op.NewInstance? || op.Attach? || op.Detach? || op.Enlarge?
    ensures i in Step(w, op).insts && StaysAttached(w.insts[i], Step(w, op).insts[i])
  {
    assert InstOk(w.heaps, w.insts[i]);
  }

  lemma StepKeepsAttachment<H, I>(w: World<H, I>, op: Op<H, I>, i: I)
    requires Inv(w) && Allowed(w, op) && op != Detach(i) && i in w.insts && w.insts[i].heap.Some?
    ensures var w' := Step(w, op);
            i in w'.insts && StaysAttached(w.insts[i], w'.insts[i]) && w.insts[i].heap.value in w.heaps
  {
    assert InstOk(w.heaps, w.insts[i]);
    if op.LookupApp? || op.LookupNative? {
      LookupKeepsAttachment(w, op, i);
    } else if op.NewInstance? || op.Attach? || op.Detach? || op.Enlarge? {
      InstanceStepKeepsAttachment(w, op, i);
    }
  }

  lemma {:induction false} RunKeepsAttachedChain<H, I>(w: World<H, I>, ops: seq<Op<H, I>>, i: I)
    requires Inv(w) && RunAllowed(w, ops) && Detach(i) !in ops && i in w.insts && w.insts[i].heap.Some?
    ensures var w' := Run(w, ops);
            && i in w'.insts && w'.insts[i].heap == w.insts[i].heap
            && w.insts[i].mem.Some? && w'.insts[i].mem.Some?
            && w'.insts[i].mem.value.is64 == w.insts[i].mem.value.is64
            && w.insts[i].heap.value in w.heaps
            && Layout(w'.heaps) && SameChain(w.heaps, w'.heaps, w.insts[i].heap.value)
    decreases |ops|
  {
    if ops == [] {
      assert InstOk(w.heaps, w.insts[i]);
    } else {
      StepKeepsAttachment(w, ops[0], i);
      StepKeepsAttachedChain(w, ops[0], i);
      StepKeepsInv(w, ops[0]);
      RunKeepsAttachedChain(Step(w, ops[0]), ops[1..], i);
    }
  }

  /** Free leads back to the block as long as the chain is the same. */
  lemma FreeOfMalloc<H>(hs: Store<H>, hs': Store<H>, k: H, is64: bool, native: nat)
    requires Layout(hs) && Layout(hs') && k in hs && SameChain(hs, hs', k) && ManagedBlock(hs, k, native)
    ensures FreeAddress(hs', k, is64, MallocOffset(hs, k, is64, native)) == Some(native)
    ensures InChain(hs', k, is64, MallocOffset(hs, k, is64, native), 1)
  {
    var off := MallocOffset(hs, k, is64, native);
    ManagedHeapFrame(hs, hs', k);
    ManagedHeapOnChain(hs, k);
    var m := ManagedHeap(hs, k).value;
    assert Placed(hs, m);
    HitIsContainment(hs, m, is64, off, 1);
    assert m in Chain(hs', k) && InHeap(hs'[m], is64, off, 1);
  }

  /**
   A block allocated now can be freed at any later moment before detach: whatever
   calls lie in between, the offset is still inside the chain and leads back to
   the same native block.
   */
  lemma {:induction false} FreeUndoesMalloc<H, I>(w: World<H, I>, ops: seq<Op<H, I>>, i: I, k: H, native: nat)
    requires Inv(w) && RunAllowed(w, ops) && Detach(i) !in ops && i in w.insts && w.insts[i].heap == Some(k)
    requires k in w.heaps && w.insts[i].mem.Some? && ManagedBlock(w.heaps, k, native)
    ensures var (w', is64) := (Run(w, ops), w.insts[i].mem.value.is64);
            && Layout(w.heaps) && RefOk(w.heaps, w.insts[i])
            && i in w'.insts && w'.insts[i].heap == Some(k)
            && w'.insts[i].mem.Some? && w'.insts[i].mem.value.is64 == is64
            && Layout(w'.heaps) && k in w'.heaps && RefOk(w'.heaps, w'.insts[i])
            && Free(w'.heaps, w'.insts[i], Malloc(w.heaps, w.insts[i], Some(native))) == Some(native)
            && InChain(w'.heaps, k, is64, Malloc(w.heaps, w.insts[i], Some(native)), 1)
  {
    hide Run, RunAllowed, Layout, Chain, ManagedHeap, LM.Valid, First, WindowIs, Wellformed;
    RunKeepsAttachedChain(w, ops, i);
    RunKeepsInv(w, ops);
    InstIsRefOk(w, i);
    InstIsRefOk(Run(w, ops), i);
    FreeOfMalloc(w.heaps, Run(w, ops).heaps, k, w.insts[i].mem.value.is64, native);
  }

  lemma {:induction false} InstIsRefOk<H, I>(w: World<H, I>, i: I)
    requires Inv(w) && i in w.insts
    ensures Layout(w.heaps) && RefOk(w.heaps, w.insts[i])
  {
    assert InstOk(w.heaps, w.insts[i]);
  }

  // ---------------------------------------------------------------------------
  // The window of an instance without a chain
  // ---------------------------------------------------------------------------

  /** No access falls into the cached window. */
  ghost predicate WindowShut<H>(n: Inst<H>) {
    forall off: nat, bytes: nat | bytes > 0 :: !Hit(n.winStart, n.winEnd, off, bytes)
  }

  ghost predicate ShutUnlessAttached<H, I>(w: World<H, I>) {
    forall i | i in w.insts && w.insts[i].heap.None? :: WindowShut(w.insts[i])
  }

  lemma {:induction false} EffectKeepsShut<H, I>(w: World<H, I>, op: Op<H, I>)
    requires Sane(w) && Callable(w, op) && ShutUnlessAttached(w)
    ensures ShutUnlessAttached(Effect(w, op))
  {
    hide Sane, Chained, Unchained, ResetStore, ChainAccepted, NewHeap, Layout, FindApp, FindNative, LM.Grow;
    forall i | i in Effect(w, op).insts && Effect(w, op).insts[i].heap.None?
      ensures WindowShut(Effect(w, op).insts[i])
    {
      if i in w.insts && w.insts[i].heap.None? {
        assert WindowShut(w.insts[i]);
      }
    }
  }

  /**
   In every state that can be reached no access of an instance without a chain
   can be taken for one to a shared heap: not before its
   first attach, and not after a detach, whatever window was cached before.
   */
  lemma {:induction false} RunKeepsShut<H, I>(w: World<H, I>, ops: seq<Op<H, I>>)
    requires Inv(w) && ShutUnlessAttached(w) && RunAllowed(w, ops)
    ensures ShutUnlessAttached(Run(w, ops))
    decreases |ops|
  {
    if ops != [] {
      InvIsSane(w);
      StepKeepsInv(w, ops[0]);
      EffectKeepsShut(w, ops[0]);
      RunKeepsShut(Step(w, ops[0]), ops[1..]);
    }
  }

  lemma {:induction false} ReachableShut<H, I>(ops: seq<Op<H, I>>)
    requires RunAllowed(EmptyWorld<H, I>(), ops)
    ensures ShutUnlessAttached(Run(EmptyWorld<H, I>(), ops))
  {
    RunKeepsShut(EmptyWorld<H, I>(), ops);
  }
}
