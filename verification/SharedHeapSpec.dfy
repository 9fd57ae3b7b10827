/**
 Shared heaps as values: the store of heap records that the runtime's heap list
 links together, the chains inside it, and what chaining and unchaining do to
 the store. `H` is the type of heap pointers, used as keys of the store.
 */
module SharedHeapSpec {
  import opened Machine

  const APP_HEAP_SIZE_MIN: nat := 256

  /** The fields of a shared heap record; `attached` is an 8-bit counter. */
  datatype Heap<H> = Heap(size: nat, base: nat, managed: bool, start64: nat, start32: nat,
                          next: Option<H>, attached: nat)

  type Store<!H> = map<H, Heap<H>>

  function Start(h: Heap, is64: bool): nat {
    if is64 then h.start64 else h.start32
  }

  function Top(is64: bool): nat {
    if is64 then 0x1_0000_0000_0000_0000 else 0x1_0000_0000
  }

  /** A heap lies directly below its successor, or at the top if it is the last. */
  ghost predicate Placed<H>(hs: Store<H>, k: H)
    requires k in hs
  {
    var h := hs[k];
    && APP_HEAP_SIZE_MIN <= h.size <= APP_HEAP_SIZE_MAX
    && h.base + h.size < UINT64_TOP
    && h.attached < 256
    && h.start64 == h.start32 + (Top(true) - Top(false))
    && match h.next {
         case None => h.start32 + h.size == Top(false)
         case Some(n) => n in hs && h.start32 + h.size == hs[n].start32 < Top(false)
       }
  }

  /** The layout of the whole store: every heap is placed and has one predecessor at most. */
  ghost predicate Layout<H>(hs: Store<H>) {
    && (forall k | k in hs :: Placed(hs, k))
    && (forall a, b | a in hs && b in hs && hs[a].next.Some? && hs[a].next == hs[b].next :: a == b)
  }

  /** No heap points to `k`: it is the first of its chain. */
  ghost predicate First<H>(hs: Store<H>, k: H) {
    forall p | p in hs :: hs[p].next != Some(k)
  }

  /** The heaps reached from `k` by following `chain_next`; terminates, so no chain is cyclic. */
  ghost function Chain<H>(hs: Store<H>, k: H): (c: seq<H>)
    requires k in hs && Layout(hs)
    ensures c != [] && c[0] == k
    ensures forall x | x in c :: x in hs && hs[k].start32 <= hs[x].start32
    decreases Top(false) - hs[k].start32
  {
    assert Placed(hs, k);
    [k] + if hs[k].next.None? then [] else Chain(hs, hs[k].next.value)
  }

  /** How many heaps from `k` on are runtime-managed. */
  ghost function ManagedCount<H>(hs: Store<H>, k: H): (n: nat)
    requires k in hs && Layout(hs)
    decreases Top(false) - hs[k].start32
  {
    assert Placed(hs, k);
    (if hs[k].managed then 1 else 0) + if hs[k].next.None? then 0 else ManagedCount(hs, hs[k].next.value)
  }

  /** The first runtime-managed heap of a chain. */
  ghost function ManagedHeap<H>(hs: Store<H>, k: H): (r: Option<H>)
    requires k in hs && Layout(hs)
    decreases Top(false) - hs[k].start32
  {
    assert Placed(hs, k);
    if hs[k].managed then Some(k)
    else if hs[k].next.None? then None
    else ManagedHeap(hs, hs[k].next.value)
  }

  lemma {:induction false} ManagedHeapOnChain<H>(hs: Store<H>, k: H)
    requires k in hs && Layout(hs) && ManagedHeap(hs, k).Some?
    ensures ManagedHeap(hs, k).value in Chain(hs, k)
    decreases Top(false) - hs[k].start32
  {
    assert Placed(hs, k);
    if !hs[k].managed {
      ManagedHeapOnChain(hs, hs[k].next.value);
    }
  }

  ghost predicate Wellformed<H>(hs: Store<H>) {
    && Layout(hs)
    && forall k | k in hs :: ManagedCount(hs, k) <= 1
  }

  // ---------------------------------------------------------------------------
  // What the layout says about a whole chain
  // ---------------------------------------------------------------------------

  /** Along a chain each heap ends where the next one starts, and the last one at the top. */
  lemma {:induction false} ChainTiles<H>(hs: Store<H>, k: H, i: nat)
    requires k in hs && Layout(hs) && i < |Chain(hs, k)|
    ensures Placed(hs, Chain(hs, k)[i])
    ensures i + 1 < |Chain(hs, k)| ==> hs[Chain(hs, k)[i]].next == Some(Chain(hs, k)[i + 1])
    ensures forall is64: bool :: i + 1 < |Chain(hs, k)| ==>
              Start(hs[Chain(hs, k)[i]], is64) + hs[Chain(hs, k)[i]].size == Start(hs[Chain(hs, k)[i + 1]], is64)
    ensures forall is64: bool :: i + 1 == |Chain(hs, k)| ==>
              hs[Chain(hs, k)[i]].next.None? && Start(hs[Chain(hs, k)[i]], is64) + hs[Chain(hs, k)[i]].size == Top(is64)
    decreases i
  {
    assert Placed(hs, k);
    if i == 0 {
      if hs[k].next.Some? {
        var c := Chain(hs, hs[k].next.value);
        assert Chain(hs, k)[1] == c[0];
        assert Placed(hs, hs[k].next.value);
      }
    } else {
      ChainTiles(hs, hs[k].next.value, i - 1);
    }
  }

  /** Starts grow strictly along a chain. */
  lemma {:induction false} ChainOrdered<H>(hs: Store<H>, k: H, i: nat, j: nat)
    requires k in hs && Layout(hs) && i < j < |Chain(hs, k)|
    ensures hs[Chain(hs, k)[i]].start32 + hs[Chain(hs, k)[i]].size <= hs[Chain(hs, k)[j]].start32
    decreases j
  {
    ChainTiles(hs, k, i);
    if i + 1 < j {
      ChainTiles(hs, k, j - 1);
      ChainOrdered(hs, k, i, j - 1);
    }
  }

  /** Hence the app ranges of one chain are disjoint and no heap occurs in it twice. */
  lemma {:induction false} ChainDisjoint<H>(hs: Store<H>, k: H, i: nat, j: nat)
    requires k in hs && Layout(hs) && i < |Chain(hs, k)| && j < |Chain(hs, k)| && i != j
    ensures Chain(hs, k)[i] != Chain(hs, k)[j]
    ensures forall a: nat, is64: bool ::
              !(InHeap(hs[Chain(hs, k)[i]], is64, a, 1) && InHeap(hs[Chain(hs, k)[j]], is64, a, 1))
  {
    var (lo, hi) := if i < j then (i, j) else (j, i);
    ChainOrdered(hs, k, lo, hi);
    ChainTiles(hs, k, lo);
    ChainTiles(hs, k, hi);
  }

  /** No two of these heaps are managed by the runtime. */
  ghost predicate OneManaged<H>(hs: Store<H>, ks: seq<H>)
    requires forall k | k in ks :: k in hs
  {
    forall i, j | 0 <= i < j < |ks| :: !(hs[ks[i]].managed && hs[ks[j]].managed)
  }

  lemma {:induction false} OneManagedNext<H>(hs: Store<H>, k: H, ks: seq<H>)
    requires k in hs && forall c | c in ks :: c in hs
    ensures OneManaged(hs, [k] + ks) <==> OneManaged(hs, ks) && (hs[k].managed ==> forall c | c in ks :: !hs[c].managed)
  {
    var all := [k] + ks;
    forall i, j | 0 <= i < j < |ks| ensures ks[i] == all[i + 1] && ks[j] == all[j + 1] {}
    if OneManaged(hs, all) {
      forall i, j | 0 <= i < j < |ks| ensures !(hs[ks[i]].managed && hs[ks[j]].managed) {
        assert !(hs[all[i + 1]].managed && hs[all[j + 1]].managed);
      }
      forall c | c in ks && hs[k].managed ensures !hs[c].managed {
        var j :| 0 <= j < |ks| && ks[j] == c;
        assert !(hs[all[0]].managed && hs[all[j + 1]].managed);
      }
    }
  }

  /** The managed count is at most one exactly when no two heaps of the chain are managed. */
  lemma {:induction false} ManagedCountIff<H>(hs: Store<H>, k: H)
    requires k in hs && Layout(hs)
    ensures ManagedCount(hs, k) <= 1 <==> OneManaged(hs, Chain(hs, k))
    ensures ManagedCount(hs, k) == 0 <==> forall c | c in Chain(hs, k) :: !hs[c].managed
    decreases Top(false) - hs[k].start32
  {
    assert Placed(hs, k);
    if hs[k].next.Some? {
      var rest := Chain(hs, hs[k].next.value);
      ManagedCountIff(hs, hs[k].next.value);
      OneManagedNext(hs, k, rest);
      assert Chain(hs, k) == [k] + rest;
    }
  }

  /** At most one heap of a chain is runtime-managed, said about pairs of heaps. */
  lemma {:induction false} OneManagedPerChain<H>(hs: Store<H>, k: H, i: nat, j: nat)
    requires k in hs && Layout(hs) && ManagedCount(hs, k) <= 1 && i < j < |Chain(hs, k)|
    ensures !(hs[Chain(hs, k)[i]].managed && hs[Chain(hs, k)[j]].managed)
  {
    ManagedCountIff(hs, k);
  }

  /** An access of `bytes` bytes (0 counted as 1) at `off` lies inside one heap. */
  predicate InHeap(h: Heap, is64: bool, off: nat, bytes: nat) {
    Start(h, is64) <= off && off + (if bytes == 0 then 1 else bytes) <= Start(h, is64) + h.size
  }

  /** Some single heap of the chain contains the whole access. */
  ghost predicate InChain<H>(hs: Store<H>, k: H, is64: bool, off: nat, bytes: nat)
    requires k in hs && Layout(hs)
  {
    exists c :: c in Chain(hs, k) && InHeap(hs[c], is64, off, bytes)
  }

  // ---------------------------------------------------------------------------
  // Chains of a changed store
  // ---------------------------------------------------------------------------

  /** Chains only depend on the links of the heaps they pass. */
  lemma {:induction false} ChainFrame<H>(hs: Store<H>, hs': Store<H>, k: H)
    requires k in hs && Layout(hs) && k in hs' && Layout(hs')
    requires forall x | x in Chain(hs, k) :: x in hs' && hs'[x].next == hs[x].next && hs'[x].managed == hs[x].managed
    ensures Chain(hs', k) == Chain(hs, k)
    ensures ManagedCount(hs', k) == ManagedCount(hs, k)
    decreases Top(false) - hs[k].start32
  {
    assert Placed(hs, k) && Placed(hs', k);
    assert k in Chain(hs, k);
    if hs[k].next.Some? {
      ChainFrame(hs, hs', hs[k].next.value);
    }
  }

  /** A first heap is only on its own chain. */
  lemma {:induction false} FirstOnlyOnOwnChain<H>(hs: Store<H>, k: H, x: H)
    requires k in hs && Layout(hs) && First(hs, x) && x != k
    ensures x !in Chain(hs, k)
    decreases Top(false) - hs[k].start32
  {
    assert Placed(hs, k);
    if hs[k].next.Some? {
      FirstOnlyOnOwnChain(hs, hs[k].next.value, x);
    }
  }

  /** Every heap of a chain but the first has its predecessor on the chain. */
  lemma {:induction false} ChainPredecessor<H>(hs: Store<H>, k: H, x: H) returns (p: H)
    requires k in hs && Layout(hs) && x in Chain(hs, k) && x != k
    ensures p in Chain(hs, k) && hs[p].next == Some(x)
    decreases Top(false) - hs[k].start32
  {
    assert Placed(hs, k);
    if hs[k].next == Some(x) {
      p := k;
    } else {
      p := ChainPredecessor(hs, hs[k].next.value, x);
    }
  }

  /** Two chains with different first heaps share no heap. */
  lemma {:induction false} ChainsApart<H>(hs: Store<H>, k: H, f: H, x: H)
    requires k in hs && f in hs && Layout(hs) && First(hs, f) && k !in Chain(hs, f)
    requires x in Chain(hs, k)
    ensures x !in Chain(hs, f)
    decreases hs[x].start32
  {
    if x != k && x in Chain(hs, f) {
      var p := ChainPredecessor(hs, k, x);
      if x == f {
        assert false;
      }
      var q := ChainPredecessor(hs, f, x);
      assert p == q;
      assert Placed(hs, p);
      ChainsApart(hs, k, f, p);
    }
  }

  // ---------------------------------------------------------------------------
  // Create, chain, unchain
  // ---------------------------------------------------------------------------

  /** A heap standing alone at the top of the app address space. */
  function Alone<H>(h: Heap<H>): Heap<H>
    requires h.size <= Top(false)
  {
    h.(start64 := Top(true) - h.size, start32 := Top(false) - h.size, next := None)
  }

  /** `align_uint(v, b)` for a power of two `b`, with its 32-bit wrap-around. */
  function AlignUint(v: nat, b: nat): nat
    requires 0 < b
  {
    var up := (v + (b - 1)) / b * b;
    if up < 0x1_0000_0000 then up else 0
  }

  /** The record a successful `wasm_runtime_create_shared_heap` stores, if any. */
  function NewHeap<H>(size: nat, page: nat, pre: Option<nat>, mapped: Option<nat>): (r: Option<Heap<H>>)
    requires 0 < page
  {
    var aligned := AlignUint(size, page);
    if size == 0 || aligned > APP_HEAP_SIZE_MAX || aligned < APP_HEAP_SIZE_MIN then None
    else if pre.Some? then
      if aligned != size then None
      else Some(Alone(Heap(aligned, pre.value, false, 0, 0, None, 0)))
    else if mapped.None? then None
    else Some(Alone(Heap(aligned, mapped.value, true, 0, 0, None, 0)))
  }

  /**
   A heap is created if and only if its size, rounded up to pages, is between 256
   bytes and 1 GB, and is a whole number of pages already if the memory is given.
   It stands alone at the top of either address space.
   */
  lemma {:induction false} NewHeapIff<H>(size: nat, page: nat, pre: Option<nat>, mapped: Option<nat>, up: nat, n: nat)
    requires 0 < page && size < UINT32_TOP && up == page * n && size <= up < size + page
    ensures var r: Option<Heap<H>> := NewHeap(size, page, pre, mapped);
            && (r.Some? <==> size > 0 && 256 <= up <= 0x4000_0000 && (if pre.Some? then up == size else mapped.Some?))
            && (r.Some? ==>
                  && r.value.size == up && r.value.base == (if pre.Some? then pre.value else mapped.value)
                  && r.value.managed == pre.None? && r.value.next.None? && r.value.attached == 0
                  && r.value.start32 + up == 0x1_0000_0000 && r.value.start64 + up == 0x1_0000_0000_0000_0000)
  {
    RoundedUp(size, page, up, n);
  }

  lemma {:induction false} RoundedUp(v: nat, b: nat, up: nat, n: nat)
    requires 0 < b && up == b * n && v <= up < v + b
    ensures (v + (b - 1)) / b * b == up
  {
    var y := v + (b - 1);
    DivBounds(y, b);
    SameMultiple(b, y / b, n, y);
  }

  lemma {:induction false} DivBounds(y: nat, b: nat)
    requires 0 < b
    ensures b * (y / b) <= y < b * (y / b) + b
  {}

  lemma {:induction false} SameMultiple(b: nat, q: nat, n: nat, y: nat)
    requires b * q <= y < b * q + b && b * n <= y < b * n + b
    ensures q == n
  {
    if q < n {
      FurtherMultiple(b, q, n);
    } else if n < q {
      FurtherMultiple(b, n, q);
    }
  }

  lemma {:induction false} FurtherMultiple(b: nat, q: nat, n: nat)
    requires q < n
    ensures b * n >= b * q + b
  {
    assert b * n == b * q + b * (n - q);
    assert b * (n - q) == b + b * (n - q - 1);
  }

  /** The checks of `wasm_runtime_chain_shared_heaps` pass. */
  ghost predicate ChainAccepted<H>(hs: Store<H>, head: H, body: H)
    requires head in hs && body in hs && Layout(hs)
  {
    && hs[head].attached == 0 && hs[body].attached == 0
    && First(hs, head) && First(hs, body)
    && hs[head].next.None?
    && (if hs[head].managed then 1 else 0) + ManagedCount(hs, body) <= 1
  }

  /**
   Two heaps are chained if and only if nobody uses them, neither follows another
   heap, the head is alone, and at most one heap of the new chain is managed.
   */
  lemma {:induction false} ChainAcceptedIff<H>(hs: Store<H>, head: H, body: H)
    requires head in hs && body in hs && Layout(hs)
    ensures ChainAccepted(hs, head, body)
            <==> && hs[head].attached == 0 && hs[body].attached == 0
                 && (forall k | k in hs :: hs[k].next != Some(head) && hs[k].next != Some(body))
                 && hs[head].next.None?
                 && OneManaged(hs, [head] + Chain(hs, body))
  {
    ManagedCountIff(hs, body);
    OneManagedNext(hs, head, Chain(hs, body));
  }

  function Chained<H>(hs: Store<H>, head: H, body: H): (r: Store<H>)
    requires head in hs && body in hs && hs[head].size < UINT64_TOP
  {
    hs[head := hs[head].(start64 := Sub64(hs[body].start64, hs[head].size),
                         start32 := Sub64(hs[body].start32, hs[head].size),
                         next := Some(body))]
  }

  /** The store after `wasm_runtime_unchain_shared_heaps` went through. */
  ghost function Unchained<H>(hs: Store<H>, head: H, entire: bool): (r: Store<H>)
    requires head in hs && Layout(hs)
  {
    assert forall k | k in hs :: Placed(hs, k);
    map k | k in hs :: if k == head || (entire && k in Chain(hs, head)) then Alone(hs[k]) else hs[k]
  }

  /** Adding an unattached, unlinked heap. */
  lemma CreateKeepsWellformed<H>(hs: Store<H>, k: H, h: Heap<H>)
    requires Wellformed(hs) && k !in hs
    requires APP_HEAP_SIZE_MIN <= h.size <= APP_HEAP_SIZE_MAX
    requires h.base + h.size < UINT64_TOP && h.attached == 0
    requires h == Alone(h)
    ensures Wellformed(hs[k := h])
    ensures forall x | x in hs :: Chain(hs[k := h], x) == Chain(hs, x)
  {
    var hs' := hs[k := h];
    CreateKeepsLayout(hs, k, h);
    forall x | x in hs ensures Chain(hs', x) == Chain(hs, x) && ManagedCount(hs', x) == ManagedCount(hs, x) {
      ChainFrame(hs, hs', x);
    }
  }

  lemma CreateKeepsLayout<H>(hs: Store<H>, k: H, h: Heap<H>)
    requires Layout(hs) && k !in hs
    requires APP_HEAP_SIZE_MIN <= h.size <= APP_HEAP_SIZE_MAX
    requires h.base + h.size < UINT64_TOP && h.attached == 0
    requires h == Alone(h)
    ensures Layout(hs[k := h])
    ensures forall x | x in hs :: First(hs, x) ==> First(hs[k := h], x)
  {
    var hs' := hs[k := h];
    forall x | x in hs ensures Placed(hs', x) {
      assert Placed(hs, x);
    }
    assert Placed(hs', k);
  }

  /**
   Chaining keeps the store well formed, makes `head` the predecessor of the
   whole body chain and leaves every other chain alone.
   */
  lemma {:induction false} ChainKeepsWellformed<H>(hs: Store<H>, head: H, body: H)
    requires Wellformed(hs) && head in hs && body in hs && head != body
    requires ChainAccepted(hs, head, body) && hs[head].size <= hs[body].start32
    ensures Wellformed(Chained(hs, head, body))
    ensures Chain(Chained(hs, head, body), head) == [head] + Chain(hs, body)
    ensures forall x | x in hs && x != head :: Chain(Chained(hs, head, body), x) == Chain(hs, x)
  {
    var hs' := Chained(hs, head, body);
    assert Placed(hs, head) && Placed(hs, body);
    forall x | x in hs' ensures Placed(hs', x) {
      assert Placed(hs, x);
    }
    assert Layout(hs');
    forall x | x in hs && x != head
      ensures Chain(hs', x) == Chain(hs, x) && ManagedCount(hs', x) == ManagedCount(hs, x)
    {
      FirstOnlyOnOwnChain(hs, x, head);
      ChainFrame(hs, hs', x);
    }
    assert ManagedCount(hs', head) == (if hs[head].managed then 1 else 0) + ManagedCount(hs', body);
  }

  /**
   Exactly when an accepted chain request keeps the layout: the two heaps must
   differ and the whole chain must fit the 32-bit app address space. Otherwise
   the chain would be cyclic, or its first offset would wrap around.
   */
  lemma ChainLayoutIff<H>(hs: Store<H>, head: H, body: H)
    requires Wellformed(hs) && head in hs && body in hs && ChainAccepted(hs, head, body)
    ensures Layout(Chained(hs, head, body)) <==> head != body && hs[head].size <= hs[body].start32
  {
    var hs' := Chained(hs, head, body);
    assert Placed(hs, head) && Placed(hs, body);
    if head != body && hs[head].size <= hs[body].start32 {
      ChainKeepsWellformed(hs, head, body);
    } else {
      assert !Placed(hs', head);
    }
  }

  /** A lone heap on a buffer of one page. */
  function LoneHeap(base: nat): Heap<nat> {
    Alone(Heap(4096, base, false, 0, 0, None, 0))
  }

  /** The request to chain a heap to itself is accepted, and leaves a cycle. */
  lemma {:induction false} SelfChainAccepted(base: nat)
    requires 0 < base < UINT32_TOP
    ensures var hs: Store<nat> := map[0 := LoneHeap(base)];
            Wellformed(hs) && ChainAccepted(hs, 0, 0) && !Layout(Chained(hs, 0, 0))
  {
    var hs: Store<nat> := map[0 := LoneHeap(base)];
    assert Placed(hs, 0);
    assert ManagedCount(hs, 0) == 0;
    ChainLayoutIff(hs, 0, 0);
  }

  /**
   Unchaining one heap or the whole chain keeps the store well formed. Freed
   heaps stand alone; a single freed head leaves the rest of its chain as it was;
   chains that do not start at `head` are untouched.
   */
  lemma {:induction false} UnchainKeepsWellformed<H>(hs: Store<H>, head: H, entire: bool)
    requires Wellformed(hs) && head in hs && First(hs, head)
    ensures Wellformed(Unchained(hs, head, entire))
    ensures Chain(Unchained(hs, head, entire), head) == [head]
    ensures forall x | x in hs && x !in Chain(hs, head) :: Chain(Unchained(hs, head, entire), x) == Chain(hs, x)
    ensures !entire ==> forall x | x in hs && x != head :: Chain(Unchained(hs, head, entire), x) == Chain(hs, x)
    ensures entire ==> forall x | x in Chain(hs, head) :: Chain(Unchained(hs, head, entire), x) == [x]
  {
    var hs' := Unchained(hs, head, entire);
    UnchainKeepsLayout(hs, head, entire);
    forall x | x in hs && x != head && !(entire && x in Chain(hs, head))
      ensures Chain(hs', x) == Chain(hs, x) && ManagedCount(hs', x) == ManagedCount(hs, x)
    {
      forall y | y in Chain(hs, x)
        ensures y in hs' && hs'[y].next == hs[y].next && hs'[y].managed == hs[y].managed
      {
        FirstOnlyOnOwnChain(hs, x, head);
        if entire {
          ChainsApart(hs, x, head, y);
        }
      }
      ChainFrame(hs, hs', x);
    }
  }

  lemma UnchainKeepsLayout<H>(hs: Store<H>, head: H, entire: bool)
    requires Layout(hs) && head in hs && First(hs, head)
    ensures Layout(Unchained(hs, head, entire))
  {
    var hs' := Unchained(hs, head, entire);
    forall x | x in hs' ensures Placed(hs', x) {
      assert Placed(hs, x);
      if x != head && !(entire && x in Chain(hs, head)) && hs[x].next.Some? {
        var n := hs[x].next.value;
        assert n != head;
        if entire && n in Chain(hs, head) {
          var p := ChainPredecessor(hs, head, n);
          assert false;
        }
      }
    }
  }

  // ---------------------------------------------------------------------------
  // Resetting a chain
  // ---------------------------------------------------------------------------

  /** The managed heap after its pool was mapped anew; without a mapping, handle and base are lost. */
  function Repooled<H>(h: Heap<H>, mapped: Option<nat>): Heap<H> {
    if mapped.Some? then h.(base := mapped.value) else h.(base := 0, managed := false)
  }

  /** The store after `wasm_runtime_reset_shared_heap_chain` went through or failed half-way. */
  ghost function ResetStore<H>(hs: Store<H>, head: H, mapped: Option<nat>): (r: Store<H>)
    requires head in hs && Layout(hs)
  {
    var m := ManagedHeap(hs, head);
    if m.None? then hs
    else ManagedHeapOnChain(hs, head); hs[m.value := Repooled(hs[m.value], mapped)]
  }

  /** The operating system maps pools inside the address space. */
  ghost predicate MappingFits<H>(hs: Store<H>, head: H, mapped: Option<nat>)
    requires head in hs && Layout(hs)
  {
    mapped.Some? && ManagedHeap(hs, head).Some? ==>
      (ManagedHeapOnChain(hs, head); mapped.value + hs[ManagedHeap(hs, head).value].size < UINT64_TOP)
  }

  lemma {:induction false} RepoolKeepsLayout<H>(hs: Store<H>, m: H, mapped: Option<nat>)
    requires Layout(hs) && m in hs && (mapped.Some? ==> mapped.value + hs[m].size < UINT64_TOP)
    ensures Layout(hs[m := Repooled(hs[m], mapped)])
    ensures forall x | x in hs :: First(hs, x) ==> First(hs[m := Repooled(hs[m], mapped)], x)
  {
    var hs' := hs[m := Repooled(hs[m], mapped)];
    forall x | x in hs ensures Placed(hs', x) {
      assert Placed(hs, x);
    }
  }

  /** Chains keep their heaps, and no chain gains a managed heap. */
  lemma {:induction false} RepoolKeepsChain<H>(hs: Store<H>, m: H, mapped: Option<nat>, k: H)
    requires Layout(hs) && m in hs && k in hs && Layout(hs[m := Repooled(hs[m], mapped)])
    ensures Chain(hs[m := Repooled(hs[m], mapped)], k) == Chain(hs, k)
    ensures ManagedCount(hs[m := Repooled(hs[m], mapped)], k) <= ManagedCount(hs, k)
    decreases Top(false) - hs[k].start32
  {
    assert Placed(hs, k) && Placed(hs[m := Repooled(hs[m], mapped)], k);
    if hs[k].next.Some? {
      RepoolKeepsChain(hs, m, mapped, hs[k].next.value);
    }
  }

  /** Counters and other chains are not touched. */
  lemma {:induction false} ResetFrame<H>(hs: Store<H>, head: H, mapped: Option<nat>)
    requires Layout(hs) && head in hs
    ensures ResetStore(hs, head, mapped).Keys == hs.Keys
    ensures forall x | x in hs :: ResetStore(hs, head, mapped)[x].attached == hs[x].attached
    ensures forall x | x in hs && x !in Chain(hs, head) :: ResetStore(hs, head, mapped)[x] == hs[x]
  {
    if ManagedHeap(hs, head).Some? {
      ManagedHeapOnChain(hs, head);
    }
  }

  /** A reset, successful or not, keeps the store well formed and every chain as it was. */
  lemma {:induction false} ResetKeepsWellformed<H>(hs: Store<H>, head: H, mapped: Option<nat>)
    requires Wellformed(hs) && head in hs && MappingFits(hs, head, mapped)
    ensures Wellformed(ResetStore(hs, head, mapped))
    ensures forall x | x in hs :: Chain(ResetStore(hs, head, mapped), x) == Chain(hs, x)
    ensures forall x | x in hs :: First(hs, x) ==> First(ResetStore(hs, head, mapped), x)
  {
    if ManagedHeap(hs, head).Some? {
      ManagedHeapOnChain(hs, head);
      var m := ManagedHeap(hs, head).value;
      RepoolKeepsLayout(hs, m, mapped);
      forall x | x in hs
        ensures Chain(ResetStore(hs, head, mapped), x) == Chain(hs, x)
        ensures ManagedCount(ResetStore(hs, head, mapped), x) <= 1
      {
        RepoolKeepsChain(hs, m, mapped, x);
      }
    }
  }
}
