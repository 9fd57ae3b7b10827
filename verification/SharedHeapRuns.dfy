/** Every run of the shared-heap API keeps the invariant, and what follows from it. */
module SharedHeapRuns {
  import opened Machine
  import opened SharedHeapSpec
  import opened SharedHeapWorld
  import LM = LinearMemory

  /** The heaps of `k`'s chain are the same in both stores, up to their attach counters. */
  ghost predicate SameChain<H>(hs: Store<H>, hs': Store<H>, k: H)
    requires Layout(hs) && Layout(hs') && k in hs
  {
    && k in hs'
    && Chain(hs', k) == Chain(hs, k)
    && forall c | c in Chain(hs, k) :: hs'[c].(attached := 0) == hs[c].(attached := 0)
  }

  lemma InstFrame<H>(hs: Store<H>, hs': Store<H>, n: Inst<H>)
    requires Layout(hs) && Layout(hs') && InstOk(hs, n)
    requires n.heap.Some? ==> SameChain(hs, hs', n.heap.value) && First(hs', n.heap.value)
    ensures InstOk(hs', n)
  {
    if n.heap.Some? {
      var is64 := n.mem.value.is64;
      var c :| c in Chain(hs, n.heap.value) && WindowIs(n, hs[c], is64);
      assert n.heap.value in Chain(hs, n.heap.value);
      assert c in Chain(hs', n.heap.value) && WindowIs(n, hs'[c], is64);
    }
  }

  // ---------------------------------------------------------------------------
  // Lookups: the cache is transparent
  // ---------------------------------------------------------------------------

  /**
   The cached lookup answers as a walk without a cache would: yes exactly when a
   single heap of the attached chain contains the whole access. Afterwards the
   window is that of a heap of the chain, and after a yes of the one heap that
   contains the access.
   */
  lemma {:induction false} AppLookupTransparent<H>(hs: Store<H>, n: Inst<H>, off: nat, bytes: nat)
    requires Layout(hs) && InstOk(hs, n) && off < UINT64_TOP && bytes < UINT64_TOP
    ensures var (n', hit) := AppLookup(hs, n, off, bytes);
            && (hit <==> n.heap.Some? && InChain(hs, n.heap.value, n.mem.value.is64, off, bytes))
            && InstOk(hs, n') && n'.heap == n.heap && n'.mem == n.mem
            && (hit ==> exists c :: c in Chain(hs, n.heap.value) && InHeap(hs[c], n.mem.value.is64, off, bytes)
                                    && WindowIs(n', hs[c], n.mem.value.is64))
  {
    if n.heap.Some? {
      var k, is64 := n.heap.value, n.mem.value.is64;
      if bytes > APP_HEAP_SIZE_MAX {
        forall c | c in Chain(hs, k) ensures !InHeap(hs[c], is64, off, bytes) {
          assert Placed(hs, c);
        }
      } else {
        var c := AttachedLookup(hs, n, off, bytes);
      }
    }
  }

  lemma AttachedLookup<H>(hs: Store<H>, n: Inst<H>, off: nat, bytes: nat) returns (c: Option<H>)
    requires Layout(hs) && InstOk(hs, n) && n.heap.Some? && bytes <= APP_HEAP_SIZE_MAX
    ensures AppLookup(hs, n, off, bytes).1 <==> c.Some?
    ensures c.None? ==> AppLookup(hs, n, off, bytes).0 == n && !InChain(hs, n.heap.value, n.mem.value.is64, off, bytes)
    ensures c.Some? ==> c.value in Chain(hs, n.heap.value) && InHeap(hs[c.value], n.mem.value.is64, off, bytes)
                        && WindowIs(AppLookup(hs, n, off, bytes).0, hs[c.value], n.mem.value.is64)
    ensures AppLookup(hs, n, off, bytes).0.heap == n.heap && AppLookup(hs, n, off, bytes).0.mem == n.mem
  {
    var k, is64 := n.heap.value, n.mem.value.is64;
    var b := if bytes == 0 then 1 else bytes;
    if Hit(n.winStart, n.winEnd, off, b) {
      var w :| w in Chain(hs, k) && WindowIs(n, hs[w], is64);
      HitIsContainment(hs, w, is64, off, b);
      c := Some(w);
    } else {
      UncachedWalk(hs, k, is64, off, bytes);
      c := if Hit(Start(hs[k], is64), Top(is64) - 1, off, b) then FindApp(hs, k, is64, off, b) else None;
      if c.Some? {
        HitIsContainment(hs, c.value, is64, off, b);
      }
    }
  }

  /** The early exit and the walk together find the heap that contains the access, if there is one. */
  lemma {:induction false} UncachedWalk<H>(hs: Store<H>, k: H, is64: bool, off: nat, bytes: nat)
    requires Layout(hs) && k in hs
    ensures var b := if bytes == 0 then 1 else bytes;
            var r := FindApp(hs, k, is64, off, b);
            && (r.Some? ==> r.value in Chain(hs, k) && InHeap(hs[r.value], is64, off, bytes))
            && (r.None? || !Hit(Start(hs[k], is64), Top(is64) - 1, off, b) ==> !InChain(hs, k, is64, off, bytes))
  {
    var b := if bytes == 0 then 1 else bytes;
    FindAppSpec(hs, k, is64, off, b);
    if !Hit(Start(hs[k], is64), Top(is64) - 1, off, b) {
      OutsideIsNowhere(hs, k, is64, off, b);
    }
    if InChain(hs, k, is64, off, bytes) {
      var c :| c in Chain(hs, k) && InHeap(hs[c], is64, off, bytes);
      assert InHeap(hs[c], is64, off, b);
    }
  }

  /** The early exit is sound: an access outside [first start, top) is in no heap of the chain. */
  lemma OutsideIsNowhere<H>(hs: Store<H>, k: H, is64: bool, off: nat, bytes: nat)
    requires Layout(hs) && k in hs && 0 < bytes && !Hit(Start(hs[k], is64), Top(is64) - 1, off, bytes)
    ensures !InChain(hs, k, is64, off, bytes)
  {
    forall c | c in Chain(hs, k) ensures !InHeap(hs[c], is64, off, bytes) {
      assert Placed(hs, c) && Placed(hs, k);
      HitIsContainment(hs, c, is64, off, bytes);
    }
  }

  lemma {:induction false} NativeLookupKeeps<H>(hs: Store<H>, n: Inst<H>, addr: nat, bytes: nat)
    requires Layout(hs) && InstOk(hs, n) && addr < UINT64_TOP && bytes < UINT64_TOP
    ensures var (n', hit) := NativeLookup(hs, n, addr, bytes);
            && InstOk(hs, n') && n'.heap == n.heap && n'.mem == n.mem
            && (hit <==> n.heap.Some? && bytes <= APP_HEAP_SIZE_MAX
                         && exists c :: c in Chain(hs, n.heap.value) && NativeHit(hs[c], addr, bytes))
            && (hit ==> exists c :: c in Chain(hs, n.heap.value) && NativeHit(hs[c], addr, bytes)
                                    && WindowIs(n', hs[c], n.mem.value.is64))
  {
    if n.heap.Some? && bytes <= APP_HEAP_SIZE_MAX {
      FindNativeSpec(hs, n.heap.value, addr, bytes);
      match FindNative(hs, n.heap.value, addr, bytes) {
        case None =>
        case Some(c) => HitIsContainment(hs, c, n.mem.value.is64, 0, 1);
      }
    }
  }

  // ---------------------------------------------------------------------------
  // Every step keeps the invariant
  // ---------------------------------------------------------------------------

  /** A changed store under the same instances. */
  lemma StoreStepKeepsInv<H, I>(w: World<H, I>, hs': Store<H>)
    requires Inv(w) && Wellformed(hs') && w.heaps.Keys <= hs'.Keys
    requires forall k | k in hs' :: hs'[k].attached == if k in w.heaps then w.heaps[k].attached else 0
    requires forall i | i in w.insts && w.insts[i].heap.Some? ::
               && w.insts[i].heap.value in w.heaps
               && SameChain(w.heaps, hs', w.insts[i].heap.value) && First(hs', w.insts[i].heap.value)
    ensures Inv(w.(heaps := hs'))
  {
    forall i | i in w.insts ensures InstOk(hs', w.insts[i]) {
      InstFrame(w.heaps, hs', w.insts[i]);
    }
    forall k | k in hs' && k !in w.heaps ensures AttachedTo(w.insts, k) == {} {}
  }

  /** An instance that changes nothing but its cache or its memory. */
  lemma InstStepKeepsInv<H, I>(w: World<H, I>, i: I, n': Inst<H>)
    requires Inv(w) && i in w.insts && InstOk(w.heaps, n') && n'.heap == w.insts[i].heap
    ensures Inv(w.(insts := w.insts[i := n']))
  {
    CountFrame(w.insts, i, n');
  }

  lemma CountFrame<H, I>(insts: map<I, Inst<H>>, i: I, n': Inst<H>)
    requires if i in insts then n'.heap == insts[i].heap else n'.heap.None?
    ensures forall k: H {:trigger AttachedTo(insts, k)} :: AttachedTo(insts[i := n'], k) == AttachedTo(insts, k)
  {}

  /** An attached heap has a nonzero counter, so chain and unchain refuse it. */
  lemma AttachedIsCounted<H, I>(hs: Store<H>, insts: map<I, Inst<H>>, i: I)
    requires Counted(hs, insts) && i in insts && insts[i].heap.Some? && insts[i].heap.value in hs
    ensures hs[insts[i].heap.value].attached != 0
  {
    assert i in AttachedTo(insts, insts[i].heap.value);
  }

  lemma CreateKeepsInv<H, I>(w: World<H, I>, k: H, h: Heap<H>)
    requires Inv(w) && k !in w.heaps && h.attached == 0
    requires APP_HEAP_SIZE_MIN <= h.size <= APP_HEAP_SIZE_MAX && h.base + h.size < UINT64_TOP
    requires h == Alone(h)
    ensures Inv(w.(heaps := w.heaps[k := h]))
  {
    CreateKeepsWellformed(w.heaps, k, h);
    forall i | i in w.insts && w.insts[i].heap.Some?
      ensures w.insts[i].heap.value in w.heaps
      ensures SameChain(w.heaps, w.heaps[k := h], w.insts[i].heap.value)
      ensures First(w.heaps[k := h], w.insts[i].heap.value)
    {
      assert InstOk(w.heaps, w.insts[i]);
      CreateElsewhere(w.heaps, k, h, w.insts[i].heap.value);
    }
    StoreStepKeepsInv(w, w.heaps[k := h]);
  }

  /** A new heap does not touch any chain. */
  lemma CreateElsewhere<H>(hs: Store<H>, k: H, h: Heap<H>, x: H)
    requires Wellformed(hs) && k !in hs && x in hs && First(hs, x) && h.attached == 0
    requires APP_HEAP_SIZE_MIN <= h.size <= APP_HEAP_SIZE_MAX && h.base + h.size < UINT64_TOP
    requires h == Alone(h)
    ensures Layout(hs[k := h]) && SameChain(hs, hs[k := h], x) && First(hs[k := h], x)
  {
    CreateKeepsWellformed(hs, k, h);
    CreateKeepsLayout(hs, k, h);
  }

  lemma ChainKeepsInv<H, I>(w: World<H, I>, head: H, body: H)
    requires Inv(w) && head in w.heaps && body in w.heaps && head != body
    requires ChainAccepted(w.heaps, head, body) && w.heaps[head].size <= w.heaps[body].start32
    ensures Inv(w.(heaps := Chained(w.heaps, head, body)))
  {
    var hs' := Chained(w.heaps, head, body);
    ChainKeepsWellformed(w.heaps, head, body);
    forall i | i in w.insts && w.insts[i].heap.Some?
      ensures w.insts[i].heap.value in w.heaps
      ensures SameChain(w.heaps, hs', w.insts[i].heap.value) && First(hs', w.insts[i].heap.value)
    {
      assert InstOk(w.heaps, w.insts[i]);
      AttachedIsCounted(w.heaps, w.insts, i);
      ChainElsewhere(w.heaps, head, body, w.insts[i].heap.value);
    }
    StoreStepKeepsInv(w, hs');
  }

  /** Chaining `head` to `body` does not touch the chain of another first heap. */
  lemma ChainElsewhere<H>(hs: Store<H>, head: H, body: H, k: H)
    requires Wellformed(hs) && head in hs && body in hs && head != body
    requires ChainAccepted(hs, head, body) && hs[head].size <= hs[body].start32
    requires k in hs && First(hs, k) && k != head && k != body
    ensures Layout(Chained(hs, head, body))
    ensures SameChain(hs, Chained(hs, head, body), k) && First(Chained(hs, head, body), k)
  {
    ChainKeepsWellformed(hs, head, body);
    FirstOnlyOnOwnChain(hs, k, head);
  }

  lemma UnchainKeepsInv<H, I>(w: World<H, I>, head: H, entire: bool)
    requires Inv(w) && head in w.heaps && First(w.heaps, head) && w.heaps[head].attached == 0
    ensures Inv(w.(heaps := Unchained(w.heaps, head, entire)))
  {
    var hs' := Unchained(w.heaps, head, entire);
    UnchainKeepsWellformed(w.heaps, head, entire);
    forall i | i in w.insts && w.insts[i].heap.Some?
      ensures w.insts[i].heap.value in w.heaps
      ensures SameChain(w.heaps, hs', w.insts[i].heap.value) && First(hs', w.insts[i].heap.value)
    {
      assert InstOk(w.heaps, w.insts[i]);
      AttachedIsCounted(w.heaps, w.insts, i);
      UnchainElsewhere(w.heaps, head, entire, w.insts[i].heap.value);
    }
    StoreStepKeepsInv(w, hs');
  }

  /** Unchaining at `head` does not touch the chain of another first heap. */
  lemma UnchainElsewhere<H>(hs: Store<H>, head: H, entire: bool, k: H)
    requires Wellformed(hs) && head in hs && First(hs, head) && k in hs && First(hs, k) && k != head
    ensures Layout(Unchained(hs, head, entire))
    ensures SameChain(hs, Unchained(hs, head, entire), k) && First(Unchained(hs, head, entire), k)
  {
    UnchainKeepsWellformed(hs, head, entire);
    FirstOnlyOnOwnChain(hs, head, k);
    forall c | c in Chain(hs, k) ensures Unchained(hs, head, entire)[c] == hs[c] {
      ChainsApart(hs, k, head, c);
      assert head in Chain(hs, head);
    }
  }

  lemma ResetKeepsInv<H, I>(w: World<H, I>, head: H, mapped: Option<nat>)
    requires Inv(w) && head in w.heaps && First(w.heaps, head) && w.heaps[head].attached == 0
    requires MappingFits(w.heaps, head, mapped)
    ensures Inv(w.(heaps := ResetStore(w.heaps, head, mapped)))
  {
    hide ResetStore, MappingFits, Chain, Layout;
    var hs' := ResetStore(w.heaps, head, mapped);
    ResetKeepsWellformed(w.heaps, head, mapped);
    ResetFrame(w.heaps, head, mapped);
    forall i | i in w.insts && w.insts[i].heap.Some?
      ensures w.insts[i].heap.value in w.heaps
      ensures SameChain(w.heaps, hs', w.insts[i].heap.value) && First(hs', w.insts[i].heap.value)
    {
      assert InstOk(w.heaps, w.insts[i]);
      AttachedIsCounted(w.heaps, w.insts, i);
      ResetElsewhere(w.heaps, head, mapped, w.insts[i].heap.value);
    }
    StoreStepKeepsInv(w, hs');
  }

  /** Resetting the chain of `head` does not touch the chain of another first heap. */
  lemma ResetElsewhere<H>(hs: Store<H>, head: H, mapped: Option<nat>, k: H)
    requires Wellformed(hs) && head in hs && First(hs, head) && k in hs && First(hs, k) && k != head
    requires MappingFits(hs, head, mapped)
    ensures Layout(ResetStore(hs, head, mapped))
    ensures SameChain(hs, ResetStore(hs, head, mapped), k) && First(ResetStore(hs, head, mapped), k)
  {
    hide ResetStore, MappingFits, Chain, Layout;
    ResetKeepsWellformed(hs, head, mapped);
    ResetFrame(hs, head, mapped);
    FirstOnlyOnOwnChain(hs, head, k);
    forall c | c in Chain(hs, k) ensures c !in Chain(hs, head) {
      ChainsApart(hs, k, head, c);
    }
  }

  /** Attach counters do not take part in the layout. */
  lemma CounterFrame<H>(hs: Store<H>, k: H, h: Heap<H>)
    requires Wellformed(hs) && k in hs && h.(attached := 0) == hs[k].(attached := 0) && h.attached < 256
    ensures Wellformed(hs[k := h])
    ensures forall x | x in hs :: SameChain(hs, hs[k := h], x) && (First(hs, x) ==> First(hs[k := h], x))
  {
    var hs' := hs[k := h];
    CounterFrameLayout(hs, k, h);
    forall x | x in hs ensures SameChain(hs, hs', x) && ManagedCount(hs', x) == ManagedCount(hs, x) {
      ChainFrame(hs, hs', x);
    }
  }

  lemma CounterFrameLayout<H>(hs: Store<H>, k: H, h: Heap<H>)
    requires Layout(hs) && k in hs && h.(attached := 0) == hs[k].(attached := 0) && h.attached < 256
    ensures Layout(hs[k := h])
    ensures forall x | x in hs :: hs[k := h][x].(attached := 0) == hs[x].(attached := 0)
    ensures forall x | x in hs :: First(hs, x) ==> First(hs[k := h], x)
  {
    forall x | x in hs ensures Placed(hs[k := h], x) {
      assert Placed(hs, x);
    }
  }

  lemma AttachKeepsInv<H, I>(w: World<H, I>, i: I, k: H)
    requires Inv(w) && i in w.insts && k in w.heaps && First(w.heaps, k) && w.heaps[k].attached < 255
    requires AttachAccepted(w.heaps, w.insts[i], k)
    ensures Start(w.heaps[k], w.insts[i].mem.value.is64) < UINT64_TOP
    ensures Inv(World(w.heaps[k := BumpAttached(w.heaps[k])],
                      w.insts[i := Cached(w.insts[i].(heap := Some(k)), w.heaps[k], w.insts[i].mem.value.is64)]))
  {
    var n := w.insts[i];
    var is64 := n.mem.value.is64;
    assert Placed(w.heaps, k);
    var n' := Cached(n.(heap := Some(k)), w.heaps[k], is64);
    var hs' := w.heaps[k := BumpAttached(w.heaps[k])];
    CounterFrame(w.heaps, k, BumpAttached(w.heaps[k]));
    assert InstOk(w.heaps, n);
    assert InstOk(hs', n') by {
      HitIsContainment(w.heaps, k, is64, 0, 1);
      assert k in Chain(hs', k) && WindowIs(n', hs'[k], is64);
    }
    InstsFrame(w.heaps, hs', w.insts, i, n');
    AttachCounts(w.heaps, w.insts, i, k, n');
  }

  /** One instance replaced, the others framed. */
  lemma InstsFrame<H, I>(hs: Store<H>, hs': Store<H>, insts: map<I, Inst<H>>, i: I, n': Inst<H>)
    requires Layout(hs) && Layout(hs') && InstsOk(hs, insts) && InstOk(hs', n')
    requires forall x | x in hs :: SameChain(hs, hs', x) && (First(hs, x) ==> First(hs', x))
    ensures InstsOk(hs', insts[i := n'])
  {
    forall j | j in insts && j != i ensures InstOk(hs', insts[j]) {
      assert InstOk(hs, insts[j]);
      InstFrame(hs, hs', insts[j]);
    }
  }

  lemma AttachCounts<H, I>(hs: Store<H>, insts: map<I, Inst<H>>, i: I, k: H, n': Inst<H>)
    requires Counted(hs, insts) && k in hs && hs[k].attached < 255
    requires i in insts && insts[i].heap.None? && n'.heap == Some(k)
    ensures Counted(hs[k := BumpAttached(hs[k])], insts[i := n'])
  {
    forall x | x in hs
      ensures AttachedTo(insts[i := n'], x) == if x == k then AttachedTo(insts, x) + {i} else AttachedTo(insts, x) {}
  }

  lemma DetachKeepsInv<H, I>(w: World<H, I>, i: I)
    requires Inv(w) && i in w.insts
    ensures Inv(Step(w, Detach(i)))
  {
    var n := w.insts[i];
    assert InstOk(w.heaps, n);
    if n.heap.Some? {
      var k := n.heap.value;
      assert Placed(w.heaps, k);
      AttachedIsCounted(w.heaps, w.insts, i);
      CounterFrame(w.heaps, k, DropAttached(w.heaps[k]));
      InstsFrame(w.heaps, w.heaps[k := DropAttached(w.heaps[k])], w.insts, i, Detached(n));
      DetachCounts(w.heaps, w.insts, i, k);
    } else {
      InstStepKeepsInv(w, i, Detached(n));
    }
  }

  lemma DetachCounts<H, I>(hs: Store<H>, insts: map<I, Inst<H>>, i: I, k: H)
    requires Counted(hs, insts) && k in hs && hs[k].attached > 0
    requires i in insts && insts[i].heap == Some(k)
    ensures Counted(hs[k := DropAttached(hs[k])], insts[i := Detached(insts[i])])
  {
    forall x | x in hs
      ensures AttachedTo(insts[i := Detached(insts[i])], x) == AttachedTo(insts, x) - {i} {}
    assert i in AttachedTo(insts, k);
  }

  lemma EnlargeKeepsInv<H, I>(w: World<H, I>, i: I, inc: nat, env: LM.GrowEnv)
    requires Inv(w) && Allowed(w, Enlarge(i, inc, env))
    ensures Inv(Step(w, Enlarge(i, inc, env)))
  {
    var n := w.insts[i];
    assert InstOk(w.heaps, n);
    if n.mem.Some? {
      var m := n.mem.value;
      var m' := LM.Grow(m, inc, Floor(w.heaps, n), env).0;
      LM.GrowKeepsValid(m, inc, Floor(w.heaps, n), env);
      var n' := n.(mem := Some(m'));
      if n.heap.Some? {
        var c :| c in Chain(w.heaps, n.heap.value) && WindowIs(n, w.heaps[c], m.is64);
        assert WindowIs(n', w.heaps[c], m'.is64);
      }
      InstStepKeepsInv(w, i, n');
    }
  }

  /** Every call of the API, whatever it answers, keeps the invariant. */
  lemma StepKeepsInv<H, I>(w: World<H, I>, op: Op<H, I>)
    requires Inv(w) && Allowed(w, op)
    ensures Inv(Step(w, op))
  {
    match op
    case Create(k, size, page, pre, mapped) =>
      var h: Option<Heap<H>> := NewHeap(size, page, pre, mapped);
      if h.Some? {
        CreateKeepsInv(w, k, h.value);
      }
    case ChainHeaps(head, body) =>
      if ChainAccepted(w.heaps, head, body) {
        ChainKeepsInv(w, head, body);
      }
    case UnchainHeaps(head, entire) =>
      if w.heaps[head].next.Some? && w.heaps[head].attached == 0 {
        UnchainKeepsInv(w, head, entire);
      }
    case ResetChain(head, mapped) =>
      if w.heaps[head].attached == 0 {
        ResetKeepsInv(w, head, mapped);
      }
    case NewInstance(i, mem) =>
      CountFrame(w.insts, i, NewInst(mem));
    case Attach(i, k) =>
      if AttachAccepted(w.heaps, w.insts[i], k) {
        AttachKeepsInv(w, i, k);
      }
    case Detach(i) => DetachKeepsInv(w, i);
    case LookupApp(i, off, bytes) =>
      AppLookupTransparent(w.heaps, w.insts[i], off, bytes);
      InstStepKeepsInv(w, i, AppLookup(w.heaps, w.insts[i], off, bytes).0);
    case LookupNative(i, addr, bytes) =>
      NativeLookupKeeps(w.heaps, w.insts[i], addr, bytes);
      InstStepKeepsInv(w, i, NativeLookup(w.heaps, w.insts[i], addr, bytes).0);
    case Enlarge(i, inc, env) => EnlargeKeepsInv(w, i, inc, env);
  }
}
