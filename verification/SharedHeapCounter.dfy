/**
 Runs with any number of attachments. The attach counter of a heap has 8 bits, so
 it counts modulo 256; what still holds then, and what a full counter breaks.
 */
module SharedHeapCounter {
  import opened Machine
  import opened SharedHeapSpec
  import opened SharedHeapWorld
  import opened SharedHeapRuns
  import opened SharedHeapTheorems
  import LM = LinearMemory

  /** The counter of every heap is the number of attached instances modulo 256. */
  ghost predicate CountedModulo<H, I>(hs: Store<H>, insts: map<I, Inst<H>>) {
    forall k | k in hs :: hs[k].attached == |AttachedTo(insts, k)| % 256
  }

  /** What every call keeps, however many instances are attached. */
  ghost predicate Loose<H, I>(w: World<H, I>) {
    Sane(w) && CountedModulo(w.heaps, w.insts)
  }

  lemma BumpModulo(c: nat, n: nat)
    requires c == n % 256
    ensures (if c < 255 then c + 1 else 0) == (n + 1) % 256
    ensures n > 0 ==> (if c > 0 then c - 1 else 255) == (n - 1) % 256
  {}

  lemma AttachCountsModulo<H, I>(hs: Store<H>, insts: map<I, Inst<H>>, i: I, k: H, n': Inst<H>)
    requires CountedModulo(hs, insts) && k in hs
    requires i in insts && insts[i].heap.None? && n'.heap == Some(k)
    ensures CountedModulo(hs[k := BumpAttached(hs[k])], insts[i := n'])
  {
    forall x | x in hs
      ensures AttachedTo(insts[i := n'], x) == if x == k then AttachedTo(insts, x) + {i} else AttachedTo(insts, x) {}
    BumpModulo(hs[k].attached, |AttachedTo(insts, k)|);
  }

  lemma DetachCountsModulo<H, I>(hs: Store<H>, insts: map<I, Inst<H>>, i: I, k: H)
    requires CountedModulo(hs, insts) && k in hs && i in insts && insts[i].heap == Some(k)
    ensures CountedModulo(hs[k := DropAttached(hs[k])], insts[i := Detached(insts[i])])
  {
    var insts' := insts[i := Detached(insts[i])];
    forall x | x in hs
      ensures AttachedTo(insts', x) == if x == k then AttachedTo(insts, x) - {i} else AttachedTo(insts, x) {}
    assert i in AttachedTo(insts, k);
    BumpModulo(hs[k].attached, |AttachedTo(insts, k)|);
  }

  // ---------------------------------------------------------------------------
  // Every call
  // ---------------------------------------------------------------------------

  /** A changed store with the same counters, under the same instances. */
  lemma StoreKeepsLoose<H, I>(w: World<H, I>, hs': Store<H>)
    requires Loose(w) && Wellformed(hs') && w.heaps.Keys <= hs'.Keys
    requires forall k | k in hs' :: hs'[k].attached == if k in w.heaps then w.heaps[k].attached else 0
    ensures Loose(w.(heaps := hs'))
  {
    forall k | k in hs' && k !in w.heaps ensures AttachedTo(w.insts, k) == {} {
      forall i | i in w.insts ensures w.insts[i].heap != Some(k) {
        assert RefOk(w.heaps, w.insts[i]);
      }
    }
    forall i | i in w.insts ensures RefOk(hs', w.insts[i]) {
      assert RefOk(w.heaps, w.insts[i]);
    }
  }

  /** An instance that keeps its attachment. */
  lemma InstKeepsLoose<H, I>(w: World<H, I>, i: I, n': Inst<H>)
    requires Loose(w) && RefOk(w.heaps, n')
    requires if i in w.insts then n'.heap == w.insts[i].heap else n'.heap.None?
    ensures Loose(w.(insts := w.insts[i := n']))
  {
    CountFrame(w.insts, i, n');
    var insts' := w.insts[i := n'];
    forall j | j in insts' ensures RefOk(w.heaps, insts'[j]) {
      assert j != i ==> RefOk(w.heaps, w.insts[j]);
    }
  }

  /** One counter and one instance changed. */
  lemma CountStepKeepsSane<H, I>(w: World<H, I>, i: I, n': Inst<H>, k: H, h: Heap<H>)
    requires Sane(w) && k in w.heaps && h.(attached := 0) == w.heaps[k].(attached := 0) && h.attached < 256
    requires RefOk(w.heaps, n')
    ensures Sane(World(w.heaps[k := h], w.insts[i := n']))
  {
    CounterFrame(w.heaps, k, h);
    var insts' := w.insts[i := n'];
    forall j | j in insts' ensures RefOk(w.heaps[k := h], insts'[j]) {
      assert j != i ==> RefOk(w.heaps, w.insts[j]);
    }
  }

  lemma CreateKeepsLoose<H, I>(w: World<H, I>, op: Op<H, I>)
    requires Loose(w) && Callable(w, op) && op.Create?
    ensures Loose(Effect(w, op))
  {
    var h: Option<Heap<H>> := NewHeap(op.size, op.page, op.pre, op.mapped);
    if h.Some? {
      CreateKeepsWellformed(w.heaps, op.k, h.value);
      StoreKeepsLoose(w, w.heaps[op.k := h.value]);
    }
  }

  lemma ChainKeepsLoose<H, I>(w: World<H, I>, head: H, body: H)
    requires Loose(w) && Callable(w, ChainHeaps(head, body))
    ensures Loose(ChainStep(w, head, body))
  {
    if ChainAccepted(w.heaps, head, body) {
      ChainKeepsWellformed(w.heaps, head, body);
      StoreKeepsLoose(w, Chained(w.heaps, head, body));
    }
  }

  lemma UnchainKeepsLoose<H, I>(w: World<H, I>, head: H, entire: bool)
    requires Loose(w) && head in w.heaps && First(w.heaps, head)
    ensures Loose(UnchainStep(w, head, entire))
  {
    if w.heaps[head].next.Some? && w.heaps[head].attached == 0 {
      UnchainKeepsWellformed(w.heaps, head, entire);
      StoreKeepsLoose(w, Unchained(w.heaps, head, entire));
    }
  }

  lemma ResetKeepsLoose<H, I>(w: World<H, I>, head: H, mapped: Option<nat>)
    requires Loose(w) && head in w.heaps && MappingFits(w.heaps, head, mapped)
    ensures Loose(ResetStep(w, head, mapped))
  {
    hide ResetStore, MappingFits;
    if w.heaps[head].attached == 0 {
      ResetKeepsWellformed(w.heaps, head, mapped);
      ResetFrame(w.heaps, head, mapped);
      StoreKeepsLoose(w, ResetStore(w.heaps, head, mapped));
    }
  }

  lemma CountEffectKeepsLoose<H, I>(w: World<H, I>, op: Op<H, I>)
    requires Loose(w) && Callable(w, op) && (op.Attach? || op.Detach?)
    ensures Loose(Effect(w, op))
  {
    var n := w.insts[op.i];
    assert RefOk(w.heaps, n);
    match op
    case Attach(i, k) =>
      if AttachAccepted(w.heaps, n, k) {
        assert Placed(w.heaps, k);
        var n' := Cached(n.(heap := Some(k)), w.heaps[k], n.mem.value.is64);
        CountStepKeepsSane(w, i, n', k, BumpAttached(w.heaps[k]));
        AttachCountsModulo(w.heaps, w.insts, i, k, n');
      }
    case Detach(i) =>
      if n.heap.Some? {
        var k := n.heap.value;
        assert Placed(w.heaps, k);
        CountStepKeepsSane(w, i, Detached(n), k, DropAttached(w.heaps[k]));
        DetachCountsModulo(w.heaps, w.insts, i, k);
      } else {
        InstKeepsLoose(w, i, Detached(n));
      }
  }

  lemma InstEffectKeepsLoose<H, I>(w: World<H, I>, op: Op<H, I>)
    requires Loose(w) && Callable(w, op)
    requires op.NewInstance? || op.LookupApp? || op.LookupNative? || op.Enlarge?
    ensures Loose(Effect(w, op))
  {
    assert op.i in w.insts ==> RefOk(w.heaps, w.insts[op.i]);
    match op
    case NewInstance(i, mem) => InstKeepsLoose(w, i, NewInst(mem));
    case LookupApp(i, off, bytes) => InstKeepsLoose(w, i, AppLookup(w.heaps, w.insts[i], off, bytes).0);
    case LookupNative(i, addr, bytes) => InstKeepsLoose(w, i, NativeLookup(w.heaps, w.insts[i], addr, bytes).0);
    case Enlarge(i, inc, env) =>
      var n := w.insts[i];
      if n.mem.Some? {
        LM.GrowKeepsValid(n.mem.value, inc, Floor(w.heaps, n), env);
        InstKeepsLoose(w, i, n.(mem := Some(LM.Grow(n.mem.value, inc, Floor(w.heaps, n), env).0)));
      }
  }

  /** Every call keeps the store well formed and the counters right modulo 256. */
  lemma EffectKeepsLoose<H, I>(w: World<H, I>, op: Op<H, I>)
    requires Loose(w) && Callable(w, op)
    ensures Loose(Effect(w, op))
  {
    if op.Create? {
      CreateKeepsLoose(w, op);
    } else if op.ChainHeaps? {
      ChainKeepsLoose(w, op.head, op.body);
    } else if op.UnchainHeaps? {
      UnchainKeepsLoose(w, op.head, op.entire);
    } else if op.ResetChain? {
      ResetKeepsLoose(w, op.head, op.mapped);
    } else if op.Attach? || op.Detach? {
      CountEffectKeepsLoose(w, op);
    } else {
      InstEffectKeepsLoose(w, op);
    }
  }

  // ---------------------------------------------------------------------------
  // Runs
  // ---------------------------------------------------------------------------

  ghost predicate RunCallable<H, I>(w: World<H, I>, ops: seq<Op<H, I>>)
    requires Loose(w)
    decreases |ops|
  {
    if ops == [] then true
    else if !Callable(w, ops[0]) then false
    else EffectKeepsLoose(w, ops[0]); RunCallable(Effect(w, ops[0]), ops[1..])
  }

  ghost function FreeRun<H, I>(w: World<H, I>, ops: seq<Op<H, I>>): (r: World<H, I>)
    requires Loose(w) && RunCallable(w, ops)
    decreases |ops|
  {
    if ops == [] then w else EffectKeepsLoose(w, ops[0]); FreeRun(Effect(w, ops[0]), ops[1..])
  }

  lemma {:induction false} FreeRunKeepsLoose<H, I>(w: World<H, I>, ops: seq<Op<H, I>>)
    requires Loose(w) && RunCallable(w, ops)
    ensures Loose(FreeRun(w, ops))
    decreases |ops|
  {
    if ops != [] {
      EffectKeepsLoose(w, ops[0]);
      FreeRunKeepsLoose(Effect(w, ops[0]), ops[1..]);
    }
  }

  /** The counter is right modulo 256, and it is the number of attached instances exactly below 256. */
  ghost predicate CountsTo256<H, I>(w: World<H, I>, k: H)
    requires k in w.heaps
  {
    var n := |AttachedTo(w.insts, k)|;
    w.heaps[k].attached == n % 256 && (w.heaps[k].attached == n <==> n < 256)
  }

  lemma LooseCountsTo256<H, I>(w: World<H, I>, k: H)
    requires CountedModulo(w.heaps, w.insts) && k in w.heaps
    ensures CountsTo256(w, k)
  {
    var n := |AttachedTo(w.insts, k)|;
    assert n % 256 == n <==> n < 256;
  }

  /**
   After every run from a state like this, with any number of attachments, the
   chains are well formed, the counter is right modulo 256, and it is the number
   of attached instances if and only if there are fewer than 256.
   */
  lemma {:induction false} CounterExactIff<H, I>(start: World<H, I>, ops: seq<Op<H, I>>, k: H)
    requires Loose(start) && RunCallable(start, ops) && k in FreeRun(start, ops).heaps
    ensures Wellformed(FreeRun(start, ops).heaps) && CountsTo256(FreeRun(start, ops), k)
  {
    FreeRunKeepsLoose(start, ops);
    LooseCountsTo256(FreeRun(start, ops), k);
  }

  /** No heaps and no instances are such a state. */
  lemma EmptyWorldIsLoose<H, I>()
    ensures Loose(EmptyWorld<H, I>())
  {
    InvIsLoose(EmptyWorld<H, I>());
  }

  lemma InvIsLoose<H, I>(w: World<H, I>)
    requires Inv(w)
    ensures Loose(w)
  {
    InvIsSane(w);
    forall k | k in w.heaps ensures w.heaps[k].attached == |AttachedTo(w.insts, k)| % 256 {
      assert Placed(w.heaps, k);
    }
  }

  /** Runs that stay below the bound are among these runs. */
  lemma {:induction false} RunIsFreeRun<H, I>(w: World<H, I>, ops: seq<Op<H, I>>)
    requires Inv(w) && RunAllowed(w, ops)
    ensures Loose(w) && RunCallable(w, ops) && FreeRun(w, ops) == Run(w, ops)
    decreases |ops|
  {
    InvIsLoose(w);
    if ops != [] {
      StepKeepsInv(w, ops[0]);
      EffectKeepsLoose(w, ops[0]);
      RunIsFreeRun(Step(w, ops[0]), ops[1..]);
    }
  }

  /** The run `ops` leads from `w` to `w'`. */
  ghost predicate Leads<H, I>(w: World<H, I>, ops: seq<Op<H, I>>, w': World<H, I>) {
    Loose(w) && RunCallable(w, ops) && FreeRun(w, ops) == w'
  }

  lemma {:induction false} LeadsOn<H, I>(w: World<H, I>, a: seq<Op<H, I>>, m: World<H, I>, b: seq<Op<H, I>>,
                                         w': World<H, I>)
    requires Leads(w, a, m) && Leads(m, b, w')
    ensures Leads(w, a + b, w')
    decreases |a|
  {
    if a == [] {
      assert a + b == b;
    } else {
      EffectKeepsLoose(w, a[0]);
      LeadsOn(Effect(w, a[0]), a[1..], m, b, w');
      assert (a + b)[0] == a[0] && (a + b)[1..] == a[1..] + b;
    }
  }

  lemma OneLeads<H, I>(w: World<H, I>, op: Op<H, I>, w': World<H, I>)
    requires Loose(w) && Callable(w, op) && Effect(w, op) == w'
    ensures Leads(w, [op], w') && Loose(w')
  {
    EffectKeepsLoose(w, op);
    assert [op][1..] == [];
  }

  // ---------------------------------------------------------------------------
  // A full counter, reached by a run
  // ---------------------------------------------------------------------------

  /** Two chained heaps over the buffers at `b0` and `b1`; `c` is the counter of the first. */
  function PairStore(b0: nat, b1: nat, c: nat): Store<nat> {
    map[0 := Heap(4096, b0, false, 0xFFFF_FFFF_FFFF_E000, 0xFFFF_E000, Some(1), c),
        1 := Heap(4096, b1, false, 0xFFFF_FFFF_FFFF_F000, 0xFFFF_F000, None, 0)]
  }

  function SmallMemory(): LM.Mem {
    LM.Mem(false, 0x10000, 1, 1, 0x10000, 0x100000, 0x110000, 0x110000, 0x110000, LM.BoundCheckLimits(0x10000))
  }

  function PairInst(b0: nat): Inst<nat> {
    Inst(Some(SmallMemory()), Some(0), 0xFFFF_E000, 0xFFFF_EFFF, Sub64(b0, 0xFFFF_E000))
  }

  function Bump(c: nat): nat {
    if c < 255 then c + 1 else 0
  }

  predicate Buffers(b0: nat, b1: nat) {
    0 < b0 < 0x1_0000_0000 && 0 < b1 < 0x1_0000_0000
  }

  ghost function PairInsts(b0: nat, n: nat): (r: map<nat, Inst<nat>>)
    ensures forall i: nat :: i in r <==> i < n
    ensures forall i | i in r :: r[i] == PairInst(b0)
  {
    if n == 0 then map[] else PairInsts(b0, n - 1)[n - 1 := PairInst(b0)]
  }

  /** The heaps with `n` instances attached. */
  ghost function PairWorld(b0: nat, b1: nat, n: nat): World<nat, nat> {
    World(PairStore(b0, b1, n % 256), PairInsts(b0, n))
  }

  /** Create two heaps and chain them. */
  function SetUp(b0: nat, b1: nat): seq<Op<nat, nat>> {
    [Create(0, 4096, 4096, Some(b0), None), Create(1, 4096, 4096, Some(b1), None), ChainHeaps(0, 1)]
  }

  /** Create and attach `n` instances, one after the other. */
  function AttachMany(n: nat): seq<Op<nat, nat>> {
    if n == 0 then []
    else AttachMany(n - 1) + [NewInstance(n - 1, Some(SmallMemory())), Attach(n - 1, 0)]
  }

  lemma PairLayout(b0: nat, b1: nat, c: nat)
    requires Buffers(b0, b1) && c < 256
    ensures Layout(PairStore(b0, b1, c)) && First(PairStore(b0, b1, c), 0)
  {
    var hs := PairStore(b0, b1, c);
    assert Placed(hs, 0) && Placed(hs, 1);
  }

  lemma PairChain(b0: nat, b1: nat, c: nat)
    requires Buffers(b0, b1) && c < 256
    ensures Wellformed(PairStore(b0, b1, c)) && Chain(PairStore(b0, b1, c), 0) == [0, 1]
  {
    var hs := PairStore(b0, b1, c);
    PairLayout(b0, b1, c);
    assert Chain(hs, 1) == [1] && ManagedCount(hs, 1) == 0;
    assert Chain(hs, 0) == [0] + Chain(hs, 1);
  }

  lemma {:induction false} PairAttached(b0: nat, n: nat)
    ensures AttachedTo(PairInsts(b0, n), 1) == {} && |AttachedTo(PairInsts(b0, n), 0)| == n
  {
    if n == 0 {
      assert AttachedTo(PairInsts(b0, n), 0) == {};
    } else {
      PairAttached(b0, n - 1);
      var i: nat, was: set<nat> := n - 1, AttachedTo(PairInsts(b0, n - 1), 0);
      assert i !in was;
      assert AttachedTo(PairInsts(b0, n), 0) == was + {i};
    }
  }

  lemma PairLoose(b0: nat, b1: nat, n: nat)
    requires Buffers(b0, b1)
    ensures Loose(PairWorld(b0, b1, n))
  {
    PairChain(b0, b1, n % 256);
    PairAttached(b0, n);
    assert LM.Valid(SmallMemory());
    forall k | k in PairStore(b0, b1, n % 256)
      ensures PairStore(b0, b1, n % 256)[k].attached == |AttachedTo(PairInsts(b0, n), k)| % 256
    {
      assert k == 0 || k == 1;
    }
  }

  function OneHeap(b0: nat): World<nat, nat> {
    World(map[0 := LoneHeap(b0)], map[])
  }

  function TwoHeaps(b0: nat, b1: nat): World<nat, nat> {
    World(map[0 := LoneHeap(b0), 1 := LoneHeap(b1)], map[])
  }

  lemma CreateFirst(b0: nat, b1: nat)
    requires Buffers(b0, b1)
    ensures Leads(EmptyWorld(), [SetUp(b0, b1)[0]], OneHeap(b0)) && Loose(OneHeap(b0))
  {
    EmptyWorldIsLoose<nat, nat>();
    OneLeads(EmptyWorld(), SetUp(b0, b1)[0], OneHeap(b0));
  }

  lemma CreateSecond(b0: nat, b1: nat)
    requires Buffers(b0, b1) && Loose(OneHeap(b0))
    ensures Leads(OneHeap(b0), [SetUp(b0, b1)[1]], TwoHeaps(b0, b1)) && Loose(TwoHeaps(b0, b1))
  {
    OneLeads(OneHeap(b0), SetUp(b0, b1)[1], TwoHeaps(b0, b1));
  }

  lemma ChainBoth(b0: nat, b1: nat)
    requires Buffers(b0, b1) && Loose(TwoHeaps(b0, b1))
    ensures Leads(TwoHeaps(b0, b1), [SetUp(b0, b1)[2]], PairWorld(b0, b1, 0))
  {
    var w := TwoHeaps(b0, b1);
    assert ManagedCount(w.heaps, 1) == 0;
    assert ChainAccepted(w.heaps, 0, 1);
    OneLeads(w, SetUp(b0, b1)[2], PairWorld(b0, b1, 0));
  }

  /** The set-up is a run from nothing. */
  lemma SetUpRun(b0: nat, b1: nat)
    requires Buffers(b0, b1)
    ensures Leads(EmptyWorld(), SetUp(b0, b1), PairWorld(b0, b1, 0))
  {
    var ops := SetUp(b0, b1);
    CreateFirst(b0, b1);
    CreateSecond(b0, b1);
    ChainBoth(b0, b1);
    LeadsOn(EmptyWorld(), [ops[0]], OneHeap(b0), [ops[1]], TwoHeaps(b0, b1));
    LeadsOn(EmptyWorld(), [ops[0]] + [ops[1]], TwoHeaps(b0, b1), [ops[2]], PairWorld(b0, b1, 0));
    assert [ops[0]] + [ops[1]] + [ops[2]] == ops;
  }

  /** The heaps with `i` instances attached and one more created. */
  ghost function HalfWay(b0: nat, b1: nat, i: nat): World<nat, nat> {
    World(PairStore(b0, b1, i % 256), PairInsts(b0, i)[i := NewInst(Some(SmallMemory()))])
  }

  lemma CreateNext(b0: nat, b1: nat, i: nat)
    requires Buffers(b0, b1)
    ensures Leads(PairWorld(b0, b1, i), [NewInstance(i, Some(SmallMemory()))], HalfWay(b0, b1, i))
    ensures Loose(HalfWay(b0, b1, i))
  {
    PairLoose(b0, b1, i);
    assert LM.Valid(SmallMemory());
    OneLeads(PairWorld(b0, b1, i), NewInstance(i, Some(SmallMemory())), HalfWay(b0, b1, i));
  }

  lemma AttachNext(b0: nat, b1: nat, i: nat)
    requires Buffers(b0, b1) && Loose(HalfWay(b0, b1, i))
    ensures Leads(HalfWay(b0, b1, i), [Attach(i, 0)], PairWorld(b0, b1, i + 1))
  {
    PairLayout(b0, b1, i % 256);
    BumpModulo(i % 256, i);
    AttachEffect(b0, b1, i % 256, PairInsts(b0, i), i);
    OneLeads(HalfWay(b0, b1, i), Attach(i, 0), PairWorld(b0, b1, i + 1));
  }

  lemma AttachEffect(b0: nat, b1: nat, c: nat, insts: map<nat, Inst<nat>>, i: nat)
    requires Buffers(b0, b1) && c < 256
    ensures Layout(PairStore(b0, b1, c)) && First(PairStore(b0, b1, c), 0)
    ensures AttachStep(World(PairStore(b0, b1, c), insts[i := NewInst(Some(SmallMemory()))]), i, 0)
            == World(PairStore(b0, b1, Bump(c)), insts[i := PairInst(b0)])
  {
    PairLayout(b0, b1, c);
    var w := World(PairStore(b0, b1, c), insts[i := NewInst(Some(SmallMemory()))]);
    assert AttachStep(w, i, 0).heaps == PairStore(b0, b1, Bump(c));
    assert AttachStep(w, i, 0).insts == insts[i := PairInst(b0)];
  }

  /** Every number of instances can be attached, one after the other. */
  lemma {:induction false} AttachManyRun(b0: nat, b1: nat, n: nat)
    requires Buffers(b0, b1)
    ensures Leads(PairWorld(b0, b1, 0), AttachMany(n), PairWorld(b0, b1, n))
    decreases n
  {
    if n == 0 {
      PairLoose(b0, b1, 0);
    } else {
      AttachManyRun(b0, b1, n - 1);
      AttachLast(b0, b1, n - 1, PairWorld(b0, b1, 0), AttachMany(n - 1));
    }
  }

  lemma AttachLast(b0: nat, b1: nat, i: nat, w: World<nat, nat>, ops: seq<Op<nat, nat>>)
    requires Buffers(b0, b1) && Leads(w, ops, PairWorld(b0, b1, i))
    ensures Leads(w, ops + [NewInstance(i, Some(SmallMemory())), Attach(i, 0)], PairWorld(b0, b1, i + 1))
  {
    var create, attach := NewInstance(i, Some(SmallMemory())), Attach(i, 0);
    CreateNext(b0, b1, i);
    AttachNext(b0, b1, i);
    LeadsOn(w, ops, PairWorld(b0, b1, i), [create], HalfWay(b0, b1, i));
    LeadsOn(w, ops + [create], HalfWay(b0, b1, i), [attach], PairWorld(b0, b1, i + 1));
    assert ops + [create] + [attach] == ops + [create, attach];
  }

  /** From nothing to `n` attached instances. */
  lemma {:induction false} AttachedRun(b0: nat, b1: nat, n: nat)
    requires Buffers(b0, b1)
    ensures Leads(EmptyWorld(), SetUp(b0, b1) + AttachMany(n), PairWorld(b0, b1, n))
  {
    SetUpRun(b0, b1);
    AttachManyRun(b0, b1, n);
    LeadsOn(EmptyWorld(), SetUp(b0, b1), PairWorld(b0, b1, 0), AttachMany(n), PairWorld(b0, b1, n));
  }

  /** The counter wraps: `n` attaches leave `n` modulo 256 in it, with all `n` instances attached. */
  lemma {:induction false} CounterOverflows(b0: nat, b1: nat, n: nat)
    requires Buffers(b0, b1)
    ensures Leads(EmptyWorld(), SetUp(b0, b1) + AttachMany(n), PairWorld(b0, b1, n))
    ensures PairWorld(b0, b1, n).heaps[0].attached == n % 256
    ensures |AttachedTo(PairWorld(b0, b1, n).insts, 0)| == n
  {
    AttachedRun(b0, b1, n);
    PairAttached(b0, n);
  }

  /** The state after the chain has been taken apart under its users. */
  ghost function BrokenWorld(b0: nat, b1: nat, n: nat): World<nat, nat> {
    World(map[0 := LoneHeap(b0), 1 := LoneHeap(b1)], PairInsts(b0, n))
  }

  lemma UnchainGoesThrough(b0: nat, b1: nat, n: nat)
    requires Buffers(b0, b1) && n % 256 == 0
    ensures Leads(PairWorld(b0, b1, n), [UnchainHeaps(0, false)], BrokenWorld(b0, b1, n))
  {
    PairLoose(b0, b1, n);
    UnchainEffect(b0, b1);
    OneLeads(PairWorld(b0, b1, n), UnchainHeaps(0, false), BrokenWorld(b0, b1, n));
  }

  lemma UnchainEffect(b0: nat, b1: nat)
    requires Buffers(b0, b1)
    ensures Layout(PairStore(b0, b1, 0)) && First(PairStore(b0, b1, 0), 0)
    ensures Unchained(PairStore(b0, b1, 0), 0, false) == map[0 := LoneHeap(b0), 1 := LoneHeap(b1)]
  {
    PairLayout(b0, b1, 0);
    assert Unchained(PairStore(b0, b1, 0), 0, false).Keys == {0, 1};
  }

  /**
   And a run goes on from there: the chain is unchained while 256 instances are
   attached to it, and the cached window of an instance then claims an address
   that no heap of its chain contains.
   */
  lemma {:induction false} CounterOverflowBreaksCache(b0: nat, b1: nat, n: nat)
    requires Buffers(b0, b1) && 0 < n && n % 256 == 0
    ensures var w := BrokenWorld(b0, b1, n);
            && Leads(EmptyWorld(), SetUp(b0, b1) + AttachMany(n) + [UnchainHeaps(0, false)], w)
            && Layout(w.heaps) && 0 in w.insts && w.insts[0].heap == Some(0)
            && AppLookup(w.heaps, w.insts[0], 0xFFFF_E000, 1).1
            && !InChain(w.heaps, 0, false, 0xFFFF_E000, 1)
  {
    AttachedRun(b0, b1, n);
    UnchainGoesThrough(b0, b1, n);
    LeadsOn(EmptyWorld(), SetUp(b0, b1) + AttachMany(n), PairWorld(b0, b1, n), [UnchainHeaps(0, false)],
            BrokenWorld(b0, b1, n));
    StaleWindow(b0, b1, n);
  }

  lemma StaleWindow(b0: nat, b1: nat, n: nat)
    requires Buffers(b0, b1) && 0 < n
    ensures var w := BrokenWorld(b0, b1, n);
            && Layout(w.heaps) && 0 in w.insts && w.insts[0].heap == Some(0)
            && AppLookup(w.heaps, w.insts[0], 0xFFFF_E000, 1).1
            && !InChain(w.heaps, 0, false, 0xFFFF_E000, 1)
  {
    var w := BrokenWorld(b0, b1, n);
    assert Placed(w.heaps, 0) && Placed(w.heaps, 1);
    assert Chain(w.heaps, 0) == [0];
  }

  // ---------------------------------------------------------------------------
  // Two heaps over one buffer
  // ---------------------------------------------------------------------------

  /**
   A reachable input on which app to native and back is not the identity: two
   heaps over the same pre-allocated buffer. The first byte of the second heap
   comes back as the first byte of the first.
   */
  lemma {:induction false} SharedBufferRoundTrip(b: nat, n: nat)
    requires Buffers(b, b) && 0 < n
    ensures Leads(EmptyWorld(), SetUp(b, b) + AttachMany(n), PairWorld(b, b, n))
    ensures Layout(PairWorld(b, b, n).heaps) && InstOk(PairWorld(b, b, n).heaps, PairInst(b))
    ensures PairWorld(b, b, n).insts[0] == PairInst(b)
    ensures var (n1, p) := AppToNative(PairWorld(b, b, n).heaps, PairInst(b), 0xFFFF_F000);
            p == Some(b) && NativeToApp(PairWorld(b, b, n).heaps, n1, b).1 == 0xFFFF_E000
  {
    AttachedRun(b, b, n);
    PairInstOk(b, b, n % 256);
    SharedBufferTrip(b, n % 256);
  }

  lemma PairInstOk(b0: nat, b1: nat, c: nat)
    requires Buffers(b0, b1) && c < 256
    ensures Layout(PairStore(b0, b1, c)) && InstOk(PairStore(b0, b1, c), PairInst(b0))
  {
    PairLayout(b0, b1, c);
    PairChain(b0, b1, c);
    assert LM.Valid(SmallMemory());
    assert 0 in Chain(PairStore(b0, b1, c), 0) && WindowIs(PairInst(b0), PairStore(b0, b1, c)[0], false);
  }

  lemma SharedBufferTrip(b: nat, c: nat)
    requires Buffers(b, b) && c < 256
    ensures Layout(PairStore(b, b, c)) && InstOk(PairStore(b, b, c), PairInst(b))
    ensures var (n1, p) := AppToNative(PairStore(b, b, c), PairInst(b), 0xFFFF_F000);
            p == Some(b) && NativeToApp(PairStore(b, b, c), n1, b).1 == 0xFFFF_E000
  {
    var hs, n := PairStore(b, b, c), PairInst(b);
    PairInstOk(b, b, c);
    PairChain(b, b, c);
    AppToNativeOwned(hs, n, 0xFFFF_F000, 1);
    var (n1, p) := AppToNative(hs, n, 0xFFFF_F000);
    OwnerIff(hs, n1, b, 0);
    NativeToAppOwned(hs, n1, b);
  }
}
