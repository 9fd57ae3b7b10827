/**
 What the API leaves to its clients: to unchain, and to attach to, first heaps
 only. Exactly what goes wrong otherwise, and a run in which it does.
 */
module SharedHeapClients {
  import opened Machine
  import opened SharedHeapSpec
  import opened SharedHeapWorld
  import opened SharedHeapRuns
  import opened SharedHeapTheorems
  import opened SharedHeapCounter

  // ---------------------------------------------------------------------------
  // Unchaining in the middle
  // ---------------------------------------------------------------------------

  /** A request to unchain that goes through keeps the layout if and only if it was made at a first heap. */
  lemma {:induction false} UnchainLayoutIff<H>(hs: Store<H>, head: H, entire: bool)
    requires Wellformed(hs) && head in hs && hs[head].next.Some?
    ensures Layout(Unchained(hs, head, entire)) <==> First(hs, head)
  {
    if First(hs, head) {
      UnchainKeepsWellformed(hs, head, entire);
    } else {
      var p :| p in hs && hs[p].next == Some(head);
      BehindIsLater(hs, p, head);
      assert Placed(hs, p) && Placed(hs, head) && Placed(hs, hs[head].next.value);
      assert !Placed(Unchained(hs, head, entire), p);
    }
  }

  /** A heap is not on the chain that begins behind it. */
  lemma {:induction false} BehindIsLater<H>(hs: Store<H>, p: H, head: H)
    requires Layout(hs) && p in hs && head in hs && hs[p].next == Some(head)
    ensures p !in Chain(hs, head)
  {
    assert Placed(hs, p);
  }

  // ---------------------------------------------------------------------------
  // Attaching in the middle
  // ---------------------------------------------------------------------------

  /** The cached window is that of a heap of the attached chain. */
  ghost predicate WindowOk<H>(hs: Store<H>, n: Inst<H>)
    requires Layout(hs) && RefOk(hs, n) && n.heap.Some?
  {
    exists c :: c in Chain(hs, n.heap.value) && WindowIs(n, hs[c], n.mem.value.is64)
  }

  /** After the attach to `k`, the request to unchain at `head` goes through and moves `k`. */
  ghost predicate MovedUnderUser<H>(hs: Store<H>, k: H, head: H, entire: bool)
    requires k in hs && head in hs
  {
    && hs[k].next.Some? && (k == head || entire)
    && (if k == head then hs[k].attached == 255 else hs[head].attached == 0)
  }

  lemma {:induction false} NextOnChain<H>(hs: Store<H>, head: H, k: H)
    requires Layout(hs) && head in hs && k in Chain(hs, head) && hs[k].next.Some?
    ensures hs[head].next.Some?
  {
    assert Placed(hs, head);
  }

  /** A heap that has a successor is somewhere else when it stands alone. */
  lemma {:induction false} AloneMoves<H>(hs: Store<H>, k: H, n: Inst<H>, is64: bool)
    requires Layout(hs) && k in hs && WindowIs(n, hs[k], is64)
    ensures hs[k].size <= Top(false) && (hs[k].next.Some? ==> !WindowIs(n, Alone(hs[k]), is64))
  {
    assert Placed(hs, k);
    if hs[k].next.Some? {
      assert Placed(hs, hs[k].next.value);
    }
  }

  /** The instance after an accepted attach: its window is that of the heap it was attached to. */
  lemma {:induction false} AttachedWindow<H, I>(w: World<H, I>, i: I, k: H)
    requires Sane(w) && i in w.insts && k in w.heaps && AttachAccepted(w.heaps, w.insts[i], k)
    ensures var w1 := AttachStep(w, i, k);
            && Wellformed(w1.heaps) && RefOk(w1.heaps, w1.insts[i]) && w1.insts[i].heap == Some(k)
            && WindowIs(w1.insts[i], w1.heaps[k], w1.insts[i].mem.value.is64)
            && w1.heaps == w.heaps[k := BumpAttached(w.heaps[k])]
            && (forall x | x in w.heaps :: Chain(w1.heaps, x) == Chain(w.heaps, x))
            && (forall x | x in w.heaps :: First(w.heaps, x) ==> First(w1.heaps, x))
  {
    assert Placed(w.heaps, k) && RefOk(w.heaps, w.insts[i]);
    CounterFrame(w.heaps, k, BumpAttached(w.heaps[k]));
    HitIsContainment(w.heaps, k, w.insts[i].mem.value.is64, 0, 1);
  }

  /** A request to unchain at `head` goes through. */
  predicate UnchainAccepted<H>(hs: Store<H>, head: H)
    requires head in hs
  {
    hs[head].next.Some? && hs[head].attached == 0
  }

  lemma {:induction false} UnchainedWindow<H>(hs: Store<H>, head: H, entire: bool, k: H, n: Inst<H>)
    requires Wellformed(hs) && head in hs && First(hs, head) && k in Chain(hs, head)
    requires RefOk(hs, n) && n.heap == Some(k) && WindowIs(n, hs[k], n.mem.value.is64)
    ensures Wellformed(Unchained(hs, head, entire)) && RefOk(Unchained(hs, head, entire), n)
    ensures WindowOk(Unchained(hs, head, entire), n) <==> !(hs[k].next.Some? && (k == head || entire))
  {
    var hs' := Unchained(hs, head, entire);
    UnchainKeepsWellformed(hs, head, entire);
    UnchainedAt(hs, head, entire, k);
    AloneMoves(hs, k, n, n.mem.value.is64);
    hide Unchained, Wellformed, WindowIs, First, Alone;
    if hs[k].next.Some? && (k == head || entire) {
      assert Chain(hs', k) == [k];
    } else {
      assert k in Chain(hs', k);
    }
  }

  /** The record of a heap of the chain after it was unchained: the last one stands alone already. */
  lemma {:induction false} UnchainedAt<H>(hs: Store<H>, head: H, entire: bool, k: H)
    requires Layout(hs) && head in hs && k in Chain(hs, head)
    ensures hs[k].size <= Top(false)
    ensures Unchained(hs, head, entire)[k]
            == if hs[k].next.Some? && (k == head || entire) then Alone(hs[k]) else hs[k]
  {
    assert Placed(hs, k);
  }

  /**
   Exactly when an attached instance keeps a sound cache through an unchain of the
   chain it is on: unless it was attached to a heap behind the first, the first
   has no users of its own, the whole chain is taken apart and the heap is not the
   last one; or the counter of the first has just wrapped.
   */
  lemma {:induction false} WindowSurvivesIff<H, I>(w: World<H, I>, i: I, k: H, head: H, entire: bool)
    requires Sane(w) && i in w.insts && head in w.heaps && First(w.heaps, head) && k in Chain(w.heaps, head)
    requires AttachAccepted(w.heaps, w.insts[i], k)
    ensures Layout(AttachStep(w, i, k).heaps)
    ensures var w2 := UnchainStep(AttachStep(w, i, k), head, entire);
            && i in w2.insts && Wellformed(w2.heaps) && RefOk(w2.heaps, w2.insts[i]) && w2.insts[i].heap == Some(k)
            && (WindowOk(w2.heaps, w2.insts[i]) <==> !MovedUnderUser(w.heaps, k, head, entire))
  {
    AttachedWindow(w, i, k);
    var w1 := AttachStep(w, i, k);
    assert Placed(w.heaps, head);
    if UnchainAccepted(w1.heaps, head) {
      UnchainedWindow(w1.heaps, head, entire, k, w1.insts[i]);
    } else {
      assert k in Chain(w1.heaps, k);
      if w.heaps[k].next.Some? {
        NextOnChain(w.heaps, head, k);
      }
    }
  }

  // ---------------------------------------------------------------------------
  // Resetting from the middle
  // ---------------------------------------------------------------------------

  /** No two heaps of a chain start at the same address. */
  lemma {:induction false} StartsDiffer<H>(hs: Store<H>, k: H, c: H, d: H, is64: bool)
    requires Layout(hs) && k in hs && c in Chain(hs, k) && d in Chain(hs, k) && c != d
    ensures Start(hs[c], is64) != Start(hs[d], is64)
  {
    var i :| 0 <= i < |Chain(hs, k)| && Chain(hs, k)[i] == c;
    var j :| 0 <= j < |Chain(hs, k)| && Chain(hs, k)[j] == d;
    ChainDisjoint(hs, k, i, j);
    assert Placed(hs, c) && Placed(hs, d);
    assert InHeap(hs[c], is64, Start(hs[c], is64), 1) && InHeap(hs[d], is64, Start(hs[d], is64), 1);
  }

  /** The request to reset goes through and moves the pool of heap `c`. */
  ghost predicate PoolMoves<H>(hs: Store<H>, head: H, mapped: Option<nat>, c: H)
    requires Layout(hs) && head in hs && c in hs
  {
    hs[head].attached == 0 && ManagedHeap(hs, head) == Some(c) && Repooled(hs[c], mapped).base != hs[c].base
  }

  /**
   Exactly when a reset, wherever it is asked for, leaves the cache of an attached
   instance sound: unless it moves the pool of the heap whose window is cached.
   From the first heap of an attached chain it is refused.
   */
  lemma {:induction false} ResetSurvivesIff<H>(hs: Store<H>, n: Inst<H>, c: H, head: H, mapped: Option<nat>)
    requires Wellformed(hs) && RefOk(hs, n) && n.heap.Some? && c in Chain(hs, n.heap.value)
    requires WindowIs(n, hs[c], n.mem.value.is64) && head in hs && MappingFits(hs, head, mapped)
    ensures var hs' := if hs[head].attached != 0 then hs else ResetStore(hs, head, mapped);
            && Wellformed(hs') && RefOk(hs', n)
            && (WindowOk(hs', n) <==> !PoolMoves(hs, head, mapped, c))
  {
    hide ResetStore, MappingFits, Chain, WindowIs, Repooled, ManagedHeap, Placed;
    var k, is64 := n.heap.value, n.mem.value.is64;
    if hs[head].attached == 0 {
      ResetKeepsWellformed(hs, head, mapped);
      ResetFrame(hs, head, mapped);
      forall d | d in Chain(hs, k)
        ensures WindowIs(n, ResetStore(hs, head, mapped)[d], is64) <==> d == c && !PoolMoves(hs, head, mapped, c)
      {
        WindowAfterReset(hs, head, mapped, k, n, c, d, is64);
      }
    }
  }

  lemma {:induction false} WindowAfterReset<H>(hs: Store<H>, head: H, mapped: Option<nat>, k: H, n: Inst<H>, c: H, d: H,
                                               is64: bool)
    requires Layout(hs) && head in hs && k in hs && c in Chain(hs, k) && d in Chain(hs, k)
    requires WindowIs(n, hs[c], is64) && MappingFits(hs, head, mapped) && hs[head].attached == 0
    ensures d in ResetStore(hs, head, mapped)
    ensures WindowIs(n, ResetStore(hs, head, mapped)[d], is64) <==> d == c && !PoolMoves(hs, head, mapped, c)
  {
    assert Placed(hs, d);
    hide Layout, Chain, ManagedHeap, ResetStore, MappingFits;
    ResetAt(hs, head, mapped, d);
    if d != c {
      StartsDiffer(hs, k, c, d, is64);
    }
  }

  /** One heap after a reset: its place is the same, its pool may have moved. */
  lemma {:induction false} ResetAt<H>(hs: Store<H>, head: H, mapped: Option<nat>, x: H)
    requires Layout(hs) && head in hs && x in hs
    ensures x in ResetStore(hs, head, mapped)
    ensures ResetStore(hs, head, mapped)[x]
            == if ManagedHeap(hs, head) == Some(x) then Repooled(hs[x], mapped) else hs[x]
  {}

  // ---------------------------------------------------------------------------
  // A run in which it happens
  // ---------------------------------------------------------------------------

  function Lone(b: nat, n: nat): World<nat, nat> {
    World(if n == 0 then map[]
          else if n == 1 then map[0 := LoneHeap(b)]
          else if n == 2 then map[0 := LoneHeap(b), 1 := LoneHeap(b)]
          else map[0 := LoneHeap(b), 1 := LoneHeap(b), 2 := LoneHeap(b)], map[])
  }

  function TwoOfThree(b: nat): World<nat, nat> {
    World(map[0 := LoneHeap(b),
              1 := Heap(4096, b, false, 0xFFFF_FFFF_FFFF_E000, 0xFFFF_E000, Some(2), 0),
              2 := LoneHeap(b)], map[])
  }

  /** A chain of three heaps of one page each; `c` instances are attached to the middle one. */
  function ThreeHeaps(b: nat, c: nat): Store<nat> {
    map[0 := Heap(4096, b, false, 0xFFFF_FFFF_FFFF_D000, 0xFFFF_D000, Some(1), 0),
        1 := Heap(4096, b, false, 0xFFFF_FFFF_FFFF_E000, 0xFFFF_E000, Some(2), c),
        2 := LoneHeap(b)]
  }

  function Three(b: nat): World<nat, nat> {
    World(ThreeHeaps(b, 0), map[])
  }

  function Ready(b: nat): World<nat, nat> {
    World(ThreeHeaps(b, 0), map[0 := NewInst(Some(SmallMemory()))])
  }

  function MiddleInst(b: nat): Inst<nat> {
    Inst(Some(SmallMemory()), Some(1), 0xFFFF_E000, 0xFFFF_EFFF, Sub64(b, 0xFFFF_E000))
  }

  function Attached(b: nat): World<nat, nat> {
    World(ThreeHeaps(b, 1), map[0 := MiddleInst(b)])
  }

  function TakenApart(b: nat): World<nat, nat> {
    World(map[0 := LoneHeap(b), 1 := LoneHeap(b).(attached := 1), 2 := LoneHeap(b)], map[0 := MiddleInst(b)])
  }

  function CreateOp(k: nat, b: nat): Op<nat, nat> {
    Create(k, 4096, 4096, Some(b), None)
  }

  /** Create three heaps, chain them, attach an instance to the middle one, and unchain from the first. */
  function MiddleOps(b: nat): seq<Op<nat, nat>> {
    [CreateOp(0, b)] + ([CreateOp(1, b)] + ([CreateOp(2, b)] + ([ChainHeaps(1, 2)] + ([ChainHeaps(0, 1)]
    + ([NewInstance(0, Some(SmallMemory()))] + ([Attach(0, 1)] + [UnchainHeaps(0, true)]))))))
  }

  lemma {:induction false} CreateLone(b: nat, n: nat)
    requires Buffers(b, b) && n < 3 && Loose(Lone(b, n))
    ensures Leads(Lone(b, n), [CreateOp(n, b)], Lone(b, n + 1)) && Loose(Lone(b, n + 1))
  {
    OneLeads(Lone(b, n), CreateOp(n, b), Lone(b, n + 1));
  }

  lemma {:induction false} ChainLast(b: nat)
    requires Buffers(b, b) && Loose(Lone(b, 3))
    ensures Leads(Lone(b, 3), [ChainHeaps(1, 2)], TwoOfThree(b)) && Loose(TwoOfThree(b))
  {
    ChainLastEffect(b);
    hide CountedModulo, Wellformed, Layout, RefOk, ChainAccepted;
    OneLeads(Lone(b, 3), ChainHeaps(1, 2), TwoOfThree(b));
  }

  lemma {:induction false} ChainLastEffect(b: nat)
    requires Buffers(b, b) && Layout(Lone(b, 3).heaps)
    ensures ChainAccepted(Lone(b, 3).heaps, 1, 2) && Lone(b, 3).heaps[1].size <= Lone(b, 3).heaps[2].start32
    ensures Chained(Lone(b, 3).heaps, 1, 2) == TwoOfThree(b).heaps
  {
    var w := Lone(b, 3);
    assert ManagedCount(w.heaps, 2) == 0;
  }

  lemma {:induction false} ChainFirst(b: nat)
    requires Buffers(b, b) && Loose(TwoOfThree(b))
    ensures Leads(TwoOfThree(b), [ChainHeaps(0, 1)], Three(b))
    ensures Loose(Three(b))
  {
    ChainFirstEffect(b);
    hide CountedModulo, Wellformed, Layout, RefOk, ChainAccepted;
    OneLeads(TwoOfThree(b), ChainHeaps(0, 1), Three(b));
  }

  lemma {:induction false} ChainFirstEffect(b: nat)
    requires Buffers(b, b) && Layout(TwoOfThree(b).heaps)
    ensures ChainAccepted(TwoOfThree(b).heaps, 0, 1)
    ensures TwoOfThree(b).heaps[0].size <= TwoOfThree(b).heaps[1].start32
    ensures Chained(TwoOfThree(b).heaps, 0, 1) == ThreeHeaps(b, 0)
  {
    var w := TwoOfThree(b);
    assert ManagedCount(w.heaps, 2) == 0;
    assert ManagedCount(w.heaps, 1) == 0;
  }

  lemma {:induction false} AddInstance(b: nat)
    requires Buffers(b, b) && Loose(Three(b))
    ensures Leads(Three(b), [NewInstance(0, Some(SmallMemory()))], Ready(b)) && Loose(Ready(b))
  {
    OneLeads(Three(b), NewInstance(0, Some(SmallMemory())), Ready(b));
  }

  lemma {:induction false} AttachMiddle(b: nat)
    requires Buffers(b, b) && Loose(Ready(b))
    ensures Leads(Ready(b), [Attach(0, 1)], Attached(b)) && Loose(Attached(b))
  {
    AttachMiddleEffect(b);
    hide AttachStep, CountedModulo, Wellformed, Layout, RefOk;
    OneLeads(Ready(b), Attach(0, 1), Attached(b));
  }

  lemma {:induction false} AttachMiddleEffect(b: nat)
    requires Buffers(b, b) && Sane(Ready(b))
    ensures AttachStep(Ready(b), 0, 1) == Attached(b) && Callable(Ready(b), Attach(0, 1))
  {
    var w := Ready(b);
    hide Layout, ManagedCount;
    assert AttachStep(w, 0, 1).heaps == ThreeHeaps(b, 1);
    assert AttachStep(w, 0, 1).insts == map[0 := MiddleInst(b)];
  }

  lemma {:induction false} TakeApartFirst(b: nat)
    requires Buffers(b, b) && Loose(Attached(b))
    ensures Leads(Attached(b), [UnchainHeaps(0, true)], TakenApart(b)) && Loose(TakenApart(b))
  {
    TakeApartEffect(b);
    hide CountedModulo, Wellformed, Layout, RefOk, Unchained;
    OneLeads(Attached(b), UnchainHeaps(0, true), TakenApart(b));
  }

  lemma {:induction false} TakeApartEffect(b: nat)
    requires Buffers(b, b) && Layout(ThreeHeaps(b, 1))
    ensures First(ThreeHeaps(b, 1), 0) && Unchained(ThreeHeaps(b, 1), 0, true) == TakenApart(b).heaps
  {
    ThreeChain(b, 1);
    var hs := ThreeHeaps(b, 1);
    assert Unchained(hs, 0, true).Keys == {0, 1, 2};
    assert Unchained(hs, 0, true) == TakenApart(b).heaps;
  }

  lemma {:induction false} ThreeChain(b: nat, c: nat)
    requires Buffers(b, b) && c < 256 && Layout(ThreeHeaps(b, c))
    ensures Chain(ThreeHeaps(b, c), 0) == [0, 1, 2] && First(ThreeHeaps(b, c), 0)
  {
    var hs := ThreeHeaps(b, c);
    assert Chain(hs, 2) == [2];
    assert Chain(hs, 1) == [1] + Chain(hs, 2);
    assert Chain(hs, 0) == [0] + Chain(hs, 1);
  }

  /**
   A run that attaches an instance to the middle heap of three and then takes the
   chain apart from its first heap: the request goes through although the chain
   has a user, and the cached window then claims an address outside its chain.
   */
  lemma {:induction false} MiddleAttachBreaksCache(b: nat)
    requires Buffers(b, b)
    ensures Leads(Lone(b, 0), MiddleOps(b), TakenApart(b)) && Lone(b, 0) == EmptyWorld()
    ensures var w := TakenApart(b);
            && Layout(w.heaps) && AppLookup(w.heaps, w.insts[0], 0xFFFF_E000, 1).1
            && !InChain(w.heaps, 1, false, 0xFFFF_E000, 1)
  {
    MiddleRun(b);
    StaleMiddle(b);
  }

  lemma {:induction false} StaleMiddle(b: nat)
    requires Buffers(b, b)
    ensures var w := TakenApart(b);
            && Layout(w.heaps) && AppLookup(w.heaps, w.insts[0], 0xFFFF_E000, 1).1
            && !InChain(w.heaps, 1, false, 0xFFFF_E000, 1)
  {
    var w := TakenApart(b);
    assert Placed(w.heaps, 0) && Placed(w.heaps, 1) && Placed(w.heaps, 2);
    assert Chain(w.heaps, 1) == [1];
  }

  lemma {:induction false} Follow<H, I>(w: World<H, I>, op: Op<H, I>, mid: World<H, I>, ops: seq<Op<H, I>>,
                                        w': World<H, I>)
    requires Leads(w, [op], mid) && Leads(mid, ops, w')
    ensures Leads(w, [op] + ops, w')
  {
    LeadsOn(w, [op], mid, ops, w');
  }

  lemma {:induction false} MiddleRun(b: nat)
    requires Buffers(b, b)
    ensures Leads(Lone(b, 0), MiddleOps(b), TakenApart(b)) && Lone(b, 0) == EmptyWorld()
  {
    assert Lone(b, 0) == EmptyWorld();
    EmptyWorldIsLoose<nat, nat>();
    hide Leads, Loose, Buffers, Lone, TwoOfThree, Three, Ready, Attached, TakenApart;
    CreateLone(b, 0);
    CreateLone(b, 1);
    CreateLone(b, 2);
    ChainLast(b);
    ChainFirst(b);
    AddInstance(b);
    AttachMiddle(b);
    TakeApartFirst(b);
    var o7: seq<Op<nat, nat>> := [UnchainHeaps(0, true)];
    var o6 := [Attach(0, 1)] + o7;
    var o5 := [NewInstance(0, Some(SmallMemory()))] + o6;
    var o4 := [ChainHeaps(0, 1)] + o5;
    var o3 := [ChainHeaps(1, 2)] + o4;
    Follow(Ready(b), Attach(0, 1), Attached(b), o7, TakenApart(b));
    Follow(Three(b), NewInstance(0, Some(SmallMemory())), Ready(b), o6, TakenApart(b));
    Follow(TwoOfThree(b), ChainHeaps(0, 1), Three(b), o5, TakenApart(b));
    Follow(Lone(b, 3), ChainHeaps(1, 2), TwoOfThree(b), o4, TakenApart(b));
    CreateThenRun(b, o3);
  }

  lemma {:induction false} CreateThenRun(b: nat, o3: seq<Op<nat, nat>>)
    requires Buffers(b, b) && Leads(Lone(b, 3), o3, TakenApart(b)) && Loose(Lone(b, 0))
    ensures Leads(Lone(b, 0), [CreateOp(0, b)] + ([CreateOp(1, b)] + ([CreateOp(2, b)] + o3)), TakenApart(b))
  {
    hide *;
    CreateLone(b, 0);
    CreateLone(b, 1);
    CreateLone(b, 2);
    Follow(Lone(b, 2), CreateOp(2, b), Lone(b, 3), o3, TakenApart(b));
    Follow(Lone(b, 1), CreateOp(1, b), Lone(b, 2), [CreateOp(2, b)] + o3, TakenApart(b));
    Follow(Lone(b, 0), CreateOp(0, b), Lone(b, 1), [CreateOp(1, b)] + ([CreateOp(2, b)] + o3), TakenApart(b));
  }
}
