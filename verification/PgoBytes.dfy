/**
 The raw profile as bytes, and what a reader makes of it. Skipped bytes keep
 whatever the buffer held, so the results are about every buffer that holds the
 written items at their positions.
 */
module PgoBytes {
  import opened Machine
  import opened Arithmetic
  import opened ValueSite
  import opened PgoDump

  // ---------------------------------------------------------------------------
  // Items one after the other
  // ---------------------------------------------------------------------------

  /** Which item lies at which byte. */
  type Placement = (nat, Item) -> bool

  ghost predicate LiesNth(lies: Placement, at: nat, items: seq<Item>, i: nat)
    requires i < |items|
  {
    lies(at + Width(items[..i]), items[i])
  }

  /** The items lie one after the other from byte `at` on. */
  ghost predicate Held(lies: Placement, at: nat, items: seq<Item>) {
    forall i: nat | i < |items| :: LiesNth(lies, at, items, i)
  }

  lemma {:induction false} FrontNth(lies: Placement, at: nat, x: seq<Item>, y: seq<Item>, i: nat)
    requires Held(lies, at, x + y) && i < |x|
    ensures LiesNth(lies, at, x, i)
  {
    assert LiesNth(lies, at, x + y, i);
    assert (x + y)[..i] == x[..i];
  }

  lemma {:induction false} BackNth(lies: Placement, at: nat, x: seq<Item>, y: seq<Item>, i: nat, from: nat)
    requires Held(lies, at, x + y) && i < |y| && from == at + Width(x)
    ensures LiesNth(lies, from, y, i)
  {
    assert LiesNth(lies, at, x + y, |x| + i);
    assert (x + y)[..|x| + i] == x + y[..i];
    WidthConcat(x, y[..i]);
  }

  lemma {:induction false} Split(lies: Placement, at: nat, x: seq<Item>, y: seq<Item>, w: nat)
    requires Held(lies, at, x + y) && w == Width(x)
    ensures Held(lies, at, x) && Held(lies, at + w, y)
  {
    var from := at + w;
    forall i: nat | i < |x| ensures LiesNth(lies, at, x, i) {
      FrontNth(lies, at, x, y, i);
    }
    forall i: nat | i < |y| ensures LiesNth(lies, from, y, i) {
      BackNth(lies, at, x, y, i, from);
    }
  }

  lemma {:induction false} HeldOne(lies: Placement, at: nat, item: Item)
    requires Held(lies, at, [item])
    ensures lies(at, item)
  {
    assert LiesNth(lies, at, [item], 0);
    assert [item][..0] == [];
  }

  lemma {:induction false} SplitTwo(lies: Placement, at: nat, x: Item, y: Item)
    requires Held(lies, at, [x, y])
    ensures lies(at, x) && lies(at + ItemWidth(x), y)
  {
    assert [x, y] == [x] + [y];
    WidthOne(x);
    Split(lies, at, [x], [y], ItemWidth(x));
    HeldOne(lies, at, x);
    HeldOne(lies, at + ItemWidth(x), y);
  }

  // ---------------------------------------------------------------------------
  // A reader of value records
  // ---------------------------------------------------------------------------

  /** The number of the given width at a position. */
  type Numbers = (nat, nat) -> nat

  function ReadPairs(number: Numbers, at: nat, n: nat): (r: seq<Node>)
    ensures |r| == n
  {
    seq(n, i requires 0 <= i < n => Node(number(at + 16 * i, 8), number(at + 16 * i + 8, 8)))
  }

  /** Node lists of the given lengths, one after the other. */
  function ReadLists(number: Numbers, at: nat, counts: seq<nat>): seq<seq<Node>> {
    if counts == [] then []
    else
      var front := counts[..|counts| - 1];
      ReadLists(number, at, front) + [ReadPairs(number, at + 16 * Sum(front), counts[|counts| - 1])]
  }

  function ReadCounts(number: Numbers, at: nat, n: nat): (r: seq<nat>)
    ensures |r| == n
  {
    seq<nat>(n, i requires 0 <= i < n => number(at + i, 1))
  }

  /** One kind: its number, the node list of every site, and where it ends. */
  function ReadKind(number: Numbers, at: nat): (nat, seq<seq<Node>>, nat) {
    var n := number(at + 4, 4);
    var counts := ReadCounts(number, at + 8, n);
    var nodes := at + 8 + Align8(n);
    (number(at, 4), ReadLists(number, nodes, counts), nodes + 16 * Sum(counts))
  }

  function ReadKinds(number: Numbers, at: nat, n: nat): seq<(nat, seq<seq<Node>>)>
    decreases n
  {
    if n == 0 then []
    else
      var (kind, lists, next) := ReadKind(number, at);
      [(kind, lists)] + ReadKinds(number, next, n - 1)
  }

  /** A whole value record: its size and its kinds. */
  function ReadValueRecord(number: Numbers, at: nat): (nat, seq<(nat, seq<seq<Node>>)>) {
    (number(at, 4), ReadKinds(number, at + 8, number(at + 4, 4)))
  }

  // ---------------------------------------------------------------------------
  // It reads back what was written
  // ---------------------------------------------------------------------------

  predicate FitsWidth(width: nat, value: nat) {
    value < Pow256(width)
  }

  /** Fields that fit their width are read as they were written. */
  ghost predicate Faithful(lies: Placement, number: Numbers) {
    forall at: nat, width: nat, value: nat | lies(at, Field(width, value)) && FitsWidth(width, value) ::
      number(at, width) == value
  }

  lemma {:induction false} Fit(value: nat)
    ensures value < 0x100 ==> FitsWidth(1, value)
    ensures value < UINT32_TOP ==> FitsWidth(4, value)
    ensures value < UINT64_TOP ==> FitsWidth(8, value)
  {
    assert Pow256(2) == 0x1_0000 && Pow256(6) == 0x1_0000_0000_0000;
  }

  /** Values and counts are uint64. */
  ghost predicate Nodes64(nodes: seq<Node>) {
    forall k | 0 <= k < |nodes| :: nodes[k].value < UINT64_TOP && nodes[k].count < UINT64_TOP
  }

  function Pair(node: Node): seq<Item> {
    [Field(8, node.value), Field(8, node.count)]
  }

  lemma {:induction false} PairReads(lies: Placement, number: Numbers, at: nat, node: Node)
    requires Faithful(lies, number) && Held(lies, at, Pair(node))
    requires node.value < UINT64_TOP && node.count < UINT64_TOP
    ensures Node(number(at, 8), number(at + 8, 8)) == node
  {
    SplitTwo(lies, at, Field(8, node.value), Field(8, node.count));
    Fit(node.value);
    Fit(node.count);
  }

  lemma {:induction false} NodePairsNext(front: seq<Node>, last: Node)
    ensures NodePairs(front + [last]) == NodePairs(front) + Pair(last)
  {
    assert (front + [last])[..|front|] == front;
  }

  lemma {:induction false} ReadPairsNext(number: Numbers, at: nat, n: nat, last: Node)
    requires last == Node(number(at + 16 * n, 8), number(at + 16 * n + 8, 8))
    ensures ReadPairs(number, at, n + 1) == ReadPairs(number, at, n) + [last]
  {}

  lemma {:induction false} PairsHeld(lies: Placement, at: nat, front: seq<Node>, last: Node)
    requires Held(lies, at, NodePairs(front + [last]))
    ensures Held(lies, at, NodePairs(front)) && Held(lies, at + 16 * |front|, Pair(last))
  {
    NodePairsNext(front, last);
    PairsWidth(front);
    Split(lies, at, NodePairs(front), Pair(last), 16 * |front|);
  }

  lemma {:induction false} PairsRead(lies: Placement, number: Numbers, at: nat, nodes: seq<Node>)
    requires Faithful(lies, number) && Held(lies, at, NodePairs(nodes)) && Nodes64(nodes)
    ensures ReadPairs(number, at, |nodes|) == nodes
    decreases |nodes|
  {
    if nodes != [] {
      var n := |nodes| - 1;
      var front, last := nodes[..n], nodes[n];
      assert nodes == front + [last];
      PairsHeld(lies, at, front, last);
      PairsRead(lies, number, at, front);
      PairReads(lies, number, at + 16 * n, last);
      ReadPairsNext(number, at, n, last);
    }
  }

  lemma {:induction false} LengthsNext(front: seq<seq<Node>>, last: seq<Node>)
    ensures Lengths(front + [last]) == Lengths(front) + [|last|]
  {}

  lemma {:induction false} NodeItemsNext(front: seq<seq<Node>>, last: seq<Node>)
    ensures NodeItems(front + [last]) == NodeItems(front) + NodePairs(last)
    ensures NodeTotal(front + [last]) == NodeTotal(front) + |last|
  {
    assert (front + [last])[..|front|] == front;
  }

  lemma {:induction false} ReadListsNext(number: Numbers, at: nat, counts: seq<nat>, c: nat, pos: nat)
    requires pos == at + 16 * Sum(counts)
    ensures ReadLists(number, at, counts + [c]) == ReadLists(number, at, counts) + [ReadPairs(number, pos, c)]
    ensures Sum(counts + [c]) == Sum(counts) + c
  {
    assert (counts + [c])[..|counts|] == counts;
  }

  /** The lists read so far and one more. */
  ghost predicate ListsAre(number: Numbers, at: nat, lists: seq<seq<Node>>) {
    ReadLists(number, at, Lengths(lists)) == lists && Sum(Lengths(lists)) == NodeTotal(lists)
  }

  lemma {:induction false} ListsStep(number: Numbers, at: nat, front: seq<seq<Node>>, last: seq<Node>, pos: nat)
    requires ListsAre(number, at, front) && pos == at + 16 * NodeTotal(front)
    requires ReadPairs(number, pos, |last|) == last
    ensures ListsAre(number, at, front + [last])
  {
    LengthsNext(front, last);
    NodeItemsNext(front, last);
    ReadListsNext(number, at, Lengths(front), |last|, pos);
  }

  ghost predicate Lists64(lists: seq<seq<Node>>) {
    forall i | 0 <= i < |lists| :: Nodes64(lists[i])
  }

  lemma {:induction false} ListsHeld(lies: Placement, at: nat, front: seq<seq<Node>>, last: seq<Node>, pos: nat)
    requires Held(lies, at, NodeItems(front + [last])) && pos == at + 16 * NodeTotal(front)
    ensures Held(lies, at, NodeItems(front)) && Held(lies, pos, NodePairs(last))
  {
    hide Held, NodeItems, NodePairs, NodeTotal, Width;
    NodeItemsNext(front, last);
    NodesWidth(front);
    Split(lies, at, NodeItems(front), NodePairs(last), 16 * NodeTotal(front));
  }

  lemma {:induction false} ListsRead(lies: Placement, number: Numbers, at: nat, lists: seq<seq<Node>>)
    requires Faithful(lies, number) && Held(lies, at, NodeItems(lists)) && Lists64(lists)
    ensures ListsAre(number, at, lists)
    decreases |lists|
  {
    if lists != [] {
      var front, last := lists[..|lists| - 1], lists[|lists| - 1];
      assert lists == front + [last];
      var pos := at + 16 * NodeTotal(front);
      ListsHeld(lies, at, front, last, pos);
      ListsRead(lies, number, at, front);
      PairsRead(lies, number, pos, last);
      ListsStep(number, at, front, last, pos);
    }
  }

  lemma {:induction false} CountNext(front: seq<seq<Node>>, last: seq<Node>)
    ensures CountItems(front + [last]) == CountItems(front) + [Field(1, |last| % 256)]
  {
    assert (front + [last])[..|front|] == front;
  }

  lemma {:induction false} CountReads(lies: Placement, number: Numbers, at: nat, lists: seq<seq<Node>>, i: nat)
    requires Faithful(lies, number) && Held(lies, at, CountItems(lists)) && i < |lists|
    ensures number(at + i, 1) == |lists[i]| % 256
    decreases |lists|
  {
    var front, last := lists[..|lists| - 1], lists[|lists| - 1];
    assert lists == front + [last];
    CountNext(front, last);
    CountWidth(front);
    Split(lies, at, CountItems(front), [Field(1, |last| % 256)], |front|);
    HeldOne(lies, at + |front|, Field(1, |last| % 256));
    if i < |front| {
      CountReads(lies, number, at, front, i);
    } else {
      Fit(|last| % 256);
    }
  }

  /** The length fields are one byte: they are right exactly for lists of at most 255 nodes. */
  lemma {:induction false} CountsReadIff(lies: Placement, number: Numbers, at: nat, lists: seq<seq<Node>>)
    requires Faithful(lies, number) && Held(lies, at, CountItems(lists))
    ensures ReadCounts(number, at, |lists|) == Lengths(lists) <==> forall i | 0 <= i < |lists| :: |lists[i]| < 256
  {
    var counts, lengths := ReadCounts(number, at, |lists|), Lengths(lists);
    forall i | 0 <= i < |lists| ensures counts[i] == |lists[i]| % 256 && lengths[i] == |lists[i]| {
      CountReads(lies, number, at, lists, i);
    }
    CountsEqualIff(counts, lengths, lists);
  }

  lemma {:induction false} CountsEqualIff(counts: seq<nat>, lengths: seq<nat>, lists: seq<seq<Node>>)
    requires |counts| == |lengths| == |lists|
    requires forall i | 0 <= i < |lists| :: counts[i] == |lists[i]| % 256 && lengths[i] == |lists[i]|
    ensures counts == lengths <==> forall i | 0 <= i < |lists| :: |lists[i]| < 256
  {
    if counts == lengths {
      forall i | 0 <= i < |lists| ensures |lists[i]| < 256 {
        assert counts[i] == lengths[i];
      }
    }
  }

  /** What the profile of a site can be: at most 255 nodes, of uint64 values and counts; sites are counted in uint16. */
  ghost predicate Sites(lists: seq<seq<Node>>) {
    |lists| < 0x1_0000 && Lists64(lists) && forall i | 0 <= i < |lists| :: |lists[i]| < 256
  }

  lemma {:induction false} KindParts(kind: nat, lists: seq<seq<Node>>) returns (gap: seq<Item>)
    requires lists != []
    ensures KindItems(kind, lists) == [Field(4, kind), Field(4, |lists|)] + CountItems(lists) + gap + NodeItems(lists)
    ensures Width(CountItems(lists)) + Width(gap) == Align8(|lists|)
  {
    gap := GapItems(|lists|);
    CountWidth(lists);
    GapWidth(|lists|);
  }

  lemma {:induction false} KindHeld(lies: Placement, at: nat, kind: nat, lists: seq<seq<Node>>, padded: nat)
    requires lists != [] && Held(lies, at, KindItems(kind, lists)) && padded == Align8(|lists|)
    ensures lies(at, Field(4, kind)) && lies(at + 4, Field(4, |lists|))
    ensures Held(lies, at + 8, CountItems(lists)) && Held(lies, at + 8 + padded, NodeItems(lists))
  {
    var gap := KindParts(kind, lists);
    KindHeldParts(lies, at, Field(4, kind), Field(4, |lists|), CountItems(lists), gap, NodeItems(lists), padded);
  }

  lemma {:induction false} KindHeldParts(lies: Placement, at: nat, x: Item, y: Item, counts: seq<Item>,
                                         gap: seq<Item>, nodes: seq<Item>, padded: nat)
    requires ItemWidth(x) == 4 && ItemWidth(y) == 4 && Held(lies, at, [x, y] + counts + gap + nodes)
    requires padded == Width(counts) + Width(gap)
    ensures lies(at, x) && lies(at + 4, y)
    ensures Held(lies, at + 8, counts) && Held(lies, at + 8 + padded, nodes)
  {
    TwoWidth(x, y);
    WidthConcat([x, y], counts);
    WidthConcat([x, y] + counts, gap);
    Split(lies, at, [x, y] + counts + gap, nodes, 8 + padded);
    Split(lies, at, [x, y] + counts, gap, 8 + Width(counts));
    Split(lies, at, [x, y], counts, 8);
    SplitTwo(lies, at, x, y);
  }

  /** The next kind is read, and the rest from where it ends. */
  lemma {:induction false} KindReads(lies: Placement, number: Numbers, at: nat, kind: nat, lists: seq<seq<Node>>,
                                     n: nat, end: nat)
    requires Faithful(lies, number) && lists != [] && kind < 2 && Sites(lists) && n > 0
    requires Held(lies, at, KindItems(kind, lists)) && end == at + KindSize(lists)
    ensures ReadKinds(number, at, n) == [(kind, lists)] + ReadKinds(number, end, n - 1)
  {
    var padded := Align8(|lists|);
    KindParsed(lies, number, at, kind, lists, padded);
    KindIs(number, at, kind, lists, padded, n, end);
  }

  lemma {:induction false} KindParsed(lies: Placement, number: Numbers, at: nat, kind: nat, lists: seq<seq<Node>>,
                                      padded: nat)
    requires Faithful(lies, number) && lists != [] && kind < 2 && Sites(lists)
    requires Held(lies, at, KindItems(kind, lists)) && padded == Align8(|lists|)
    ensures number(at, 4) == kind && number(at + 4, 4) == |lists|
    ensures ReadCounts(number, at + 8, |lists|) == Lengths(lists) && ListsAre(number, at + 8 + padded, lists)
  {
    KindHeld(lies, at, kind, lists, padded);
    Fit(kind);
    Fit(|lists|);
    CountsRead(lies, number, at + 8, lists);
    ListsRead(lies, number, at + 8 + padded, lists);
  }

  lemma {:induction false} CountsRead(lies: Placement, number: Numbers, at: nat, lists: seq<seq<Node>>)
    requires Faithful(lies, number) && Held(lies, at, CountItems(lists)) && Sites(lists)
    ensures ReadCounts(number, at, |lists|) == Lengths(lists)
  {
    CountsReadIff(lies, number, at, lists);
  }

  lemma {:induction false} KindIs(number: Numbers, at: nat, kind: nat, lists: seq<seq<Node>>, padded: nat, n: nat,
                                  end: nat)
    requires padded == Align8(|lists|) && lists != [] && number(at, 4) == kind && number(at + 4, 4) == |lists|
    requires ReadCounts(number, at + 8, |lists|) == Lengths(lists) && ListsAre(number, at + 8 + padded, lists)
    requires n > 0 && end == at + KindSize(lists)
    ensures ReadKinds(number, at, n) == [(kind, lists)] + ReadKinds(number, end, n - 1)
  {
    assert ReadKind(number, at) == (kind, lists, end);
  }

  /** The kinds that have sites, in order. */
  function KindPair(s0: seq<seq<Node>>, s1: seq<seq<Node>>): seq<(nat, seq<seq<Node>>)> {
    (if s0 == [] then [] else [(0, s0)]) + (if s1 == [] then [] else [(1, s1)])
  }

  /** What a reader should see of a record's sites: those of kind 0 come first in the value table. */
  function KindsOf(d: ProfData): seq<(nat, seq<seq<Node>>)>
    requires d.values.Some? ==> |d.values.value| == d.sites0 + d.sites1
  {
    var lists := if d.values.Some? then d.values.value else seq(d.sites0 + d.sites1, _ => []);
    KindPair(lists[..d.sites0], lists[d.sites0..])
  }

  ghost predicate Profiled(d: ProfData) {
    ValidProf(d) && Sites(SiteLists(d, 0)) && Sites(SiteLists(d, 1))
  }

  lemma {:induction false} NodeTotalBound(lists: seq<seq<Node>>)
    requires forall i | 0 <= i < |lists| :: |lists[i]| < 256
    ensures NodeTotal(lists) <= 255 * |lists|
    decreases |lists|
  {
    if lists != [] {
      NodeTotalBound(lists[..|lists| - 1]);
    }
  }

  lemma {:induction false} ValueSizeBound(d: ProfData)
    requires Profiled(d)
    ensures ValueSize(d) < UINT32_TOP
  {
    NodeTotalBound(SiteLists(d, 0));
    NodeTotalBound(SiteLists(d, 1));
  }

  lemma {:induction false} RecordHeldParts(lies: Placement, at: nat, total: Item, kinds: Item, k0: seq<Item>,
                                           k1: seq<Item>)
    requires ItemWidth(total) == 4 && ItemWidth(kinds) == 4
    requires Held(lies, at, [total] + ([kinds] + k0 + k1))
    ensures lies(at, total) && lies(at + 4, kinds)
    ensures Held(lies, at + 8, k0) && Held(lies, at + 8 + Width(k0), k1)
  {
    WidthOne(total);
    WidthOne(kinds);
    WidthConcat([kinds], k0);
    Split(lies, at, [total], [kinds] + k0 + k1, 4);
    Split(lies, at + 4, [kinds] + k0, k1, 4 + Width(k0));
    Split(lies, at + 4, [kinds], k0, 4);
    HeldOne(lies, at, total);
    HeldOne(lies, at + 4, kinds);
  }

  lemma {:induction false} RecordParts(d: ProfData, s0: seq<seq<Node>>, s1: seq<seq<Node>>, size: nat)
    requires ValidProf(d) && HasSites(d) && s0 == SiteLists(d, 0) && s1 == SiteLists(d, 1) && size == ValueSize(d)
    ensures ValueItems(d) == [Field(4, size)] + ([Field(4, NumKinds(d))] + KindItems(0, s0) + KindItems(1, s1))
  {
    ValueRecordSize(d);
    assert ValueItems(d)[0] == Field(4, 4 + Width(ValueBody(d)));
  }

  lemma {:induction false} RecordHeld(lies: Placement, at: nat, d: ProfData, s0: seq<seq<Node>>, s1: seq<seq<Node>>,
                                      size: nat)
    requires ValidProf(d) && HasSites(d) && s0 == SiteLists(d, 0) && s1 == SiteLists(d, 1) && size == ValueSize(d)
    requires Held(lies, at, ValueItems(d))
    ensures lies(at, Field(4, size)) && lies(at + 4, Field(4, NumKinds(d)))
    ensures Held(lies, at + 8, KindItems(0, s0)) && Held(lies, at + 8 + KindSize(s0), KindItems(1, s1))
  {
    RecordParts(d, s0, s1, size);
    KindWidth(0, s0);
    RecordHeldParts(lies, at, Field(4, size), Field(4, NumKinds(d)), KindItems(0, s0), KindItems(1, s1));
  }

  /** The second kind has been read; the first, if there is one, stands before it. */
  lemma {:induction false} FirstKindReads(lies: Placement, number: Numbers, at: nat, s0: seq<seq<Node>>,
                                          s1: seq<seq<Node>>, mid: nat, n1: nat, n: nat)
    requires Faithful(lies, number) && Sites(s0) && Held(lies, at, KindItems(0, s0)) && mid == at + KindSize(s0)
    requires ReadKinds(number, mid, n1) == if s1 == [] then [] else [(1, s1)]
    requires n == if s0 == [] then n1 else n1 + 1
    ensures ReadKinds(number, at, n) == KindPair(s0, s1)
  {
    if s0 == [] {
      assert mid == at;
    } else {
      KindReads(lies, number, at, 0, s0, n, mid);
    }
  }

  lemma {:induction false} SecondKindReads(lies: Placement, number: Numbers, at: nat, s1: seq<seq<Node>>, n: nat)
    requires Faithful(lies, number) && Sites(s1) && Held(lies, at, KindItems(1, s1))
    requires n == if s1 == [] then 0 else 1
    ensures ReadKinds(number, at, n) == if s1 == [] then [] else [(1, s1)]
  {
    if s1 == [] {
      NoKinds(number, at, n);
    } else {
      var end := at + KindSize(s1);
      KindReads(lies, number, at, 1, s1, n, end);
      NoKinds(number, end, n - 1);
    }
  }

  lemma {:induction false} NoKinds(number: Numbers, at: nat, n: nat)
    requires n == 0
    ensures ReadKinds(number, at, n) == []
  {}

  /**
   Reading undoes emitting: every value record comes back with its size and, kind
   by kind and site by site, all values and counts.
   */
  lemma {:induction false} ValueRecordReadsBack(lies: Placement, number: Numbers, at: nat, d: ProfData)
    requires Faithful(lies, number) && Profiled(d) && HasSites(d) && Held(lies, at, ValueItems(d))
    ensures ReadValueRecord(number, at) == (ValueSize(d), KindsOf(d))
  {
    hide *;
    var s0, s1, size, n := Shape(d);
    RecordParsed(lies, number, at, d, s0, s1, size, n);
    var mid, n1 := at + 8 + KindSize(s0), if s1 == [] then 0 else 1;
    SecondKindReads(lies, number, mid, s1, n1);
    FirstKindReads(lies, number, at + 8, s0, s1, mid, n1, n);
    RecordIs(number, at, size, n, KindPair(s0, s1));
  }

  lemma {:induction false} Shape(d: ProfData)
    returns (s0: seq<seq<Node>>, s1: seq<seq<Node>>, size: nat, n: nat)
    requires Profiled(d) && HasSites(d)
    ensures s0 == SiteLists(d, 0) && s1 == SiteLists(d, 1) && KindsOf(d) == KindPair(s0, s1)
    ensures size == ValueSize(d) && n == NumKinds(d) && n == if s0 != [] && s1 != [] then 2 else 1
    ensures Sites(s0) && Sites(s1) && (s0 != [] || s1 != [])
  {
    s0, s1, size, n := SiteLists(d, 0), SiteLists(d, 1), ValueSize(d), NumKinds(d);
    var none: seq<seq<Node>> := seq(d.sites0 + d.sites1, _ => []);
    assert d.values.None? ==> s0 == none[..d.sites0] && s1 == none[d.sites0..];
  }

  lemma {:induction false} RecordParsed(lies: Placement, number: Numbers, at: nat, d: ProfData,
                                        s0: seq<seq<Node>>, s1: seq<seq<Node>>, size: nat, n: nat)
    requires Faithful(lies, number) && Profiled(d) && HasSites(d) && Held(lies, at, ValueItems(d))
    requires s0 == SiteLists(d, 0) && s1 == SiteLists(d, 1) && size == ValueSize(d) && n == NumKinds(d)
    ensures number(at, 4) == size && number(at + 4, 4) == n
    ensures Held(lies, at + 8, KindItems(0, s0)) && Held(lies, at + 8 + KindSize(s0), KindItems(1, s1))
  {
    RecordHeld(lies, at, d, s0, s1, size);
    ValueSizeBound(d);
    Fit(size);
    Fit(n);
  }

  lemma {:induction false} RecordIs(number: Numbers, at: nat, size: nat, n: nat, kinds: seq<(nat, seq<seq<Node>>)>)
    requires number(at, 4) == size && number(at + 4, 4) == n && ReadKinds(number, at + 8, n) == kinds
    ensures ReadValueRecord(number, at) == (size, kinds)
  {}

  // ---------------------------------------------------------------------------
  // The bytes of a buffer
  // ---------------------------------------------------------------------------

  const WORD: nat := 8

  function Words(ws: seq<nat>): (r: seq<byte>)
    ensures |r| == 8 * |ws|
  {
    if ws == [] then [] else ToBytes(ws[0], WORD) + Words(ws[1..])
  }

  function HeaderWords(h: Item): seq<nat>
    requires h.Header?
  {
    [h.magic, h.version, 0, h.numData, 0, h.numCounters, 0, 0, 0, h.namesSize, h.countersDelta, 0, 0, 1]
  }

  function RecordWords(r: Item): seq<nat>
    requires r.Record?
  {
    [r.prof.funcMd5, r.prof.funcHash, r.offsetCounters, r.prof.offsetBitmaps, r.prof.funcPtr, r.prof.valuesPtr]
  }

  function RecordTail(d: ProfData): (r: seq<byte>)
    ensures |r| == 12
  {
    ToBytes(d.numCounters, 4) + ToBytes(d.sites0, 2) + ToBytes(d.sites1, 2) + ToBytes(0, 4)
  }

  /** The bytes an item writes: a record leaves its last four bytes alone, a gap all of them. */
  function Written(item: Item): (r: seq<byte>)
    ensures |r| <= ItemWidth(item)
  {
    match item
    case Header(_, _, _, _, _, _) => Words(HeaderWords(item))
    case Record(d, _) => Words(RecordWords(item)) + RecordTail(d)
    case Field(width, value) => ToBytes(value, width)
    case Raw(bytes) => bytes
    case Gap(_) => []
  }

  /** The buffer holds what the item writes at byte `at`. */
  ghost predicate ItemAt(b: seq<byte>, at: nat, item: Item) {
    at + ItemWidth(item) <= |b| && b[at..at + |Written(item)|] == Written(item)
  }

  ghost function LiesIn(b: seq<byte>): Placement {
    (at: nat, item: Item) => ItemAt(b, at, item)
  }

  /** The little-endian number of `width` bytes at `at`. */
  function Number(b: seq<byte>, at: nat, width: nat): nat {
    if at + width <= |b| then FromBytes(b[at..at + width]) else 0
  }

  function NumbersIn(b: seq<byte>): Numbers {
    (at: nat, width: nat) => Number(b, at, width)
  }

  lemma {:induction false} FieldReads(b: seq<byte>, at: nat, width: nat, value: nat)
    requires ItemAt(b, at, Field(width, value)) && FitsWidth(width, value)
    ensures Number(b, at, width) == value
  {
    FromToBytes(value, width);
  }

  lemma {:induction false} BufferIsFaithful(b: seq<byte>)
    ensures Faithful(LiesIn(b), NumbersIn(b))
  {
    forall at: nat, width: nat, value: nat | LiesIn(b)(at, Field(width, value)) && FitsWidth(width, value)
      ensures NumbersIn(b)(at, width) == value
    {
      FieldReads(b, at, width, value);
    }
  }

  lemma {:induction false} WordsAt(ws: seq<nat>, i: nat)
    requires i < |ws|
    ensures Words(ws)[8 * i..8 * i + 8] == ToBytes(ws[i], WORD)
    decreases i
  {
    var head, rest := ToBytes(ws[0], WORD), Words(ws[1..]);
    assert Words(ws) == head + rest;
    hide ToBytes, Words;
    WordAfter(head, rest, i);
    if i > 0 {
      WordsAt(ws[1..], i - 1);
      assert ws[1..][i - 1] == ws[i];
    }
  }

  lemma {:induction false} WordAfter(head: seq<byte>, rest: seq<byte>, i: nat)
    requires |head| == 8 && 8 * i <= |rest|
    ensures i == 0 ==> (head + rest)[8 * i..8 * i + 8] == head
    ensures i > 0 ==> (head + rest)[8 * i..8 * i + 8] == rest[8 * (i - 1)..8 * (i - 1) + 8]
  {}

  lemma {:induction false} Within(b: seq<byte>, at: nat, w: seq<byte>, i: nat, n: nat)
    requires at + |w| <= |b| && b[at..at + |w|] == w && i + n <= |w|
    ensures b[at + i..at + i + n] == w[i..i + n]
  {
    var part, x, y := b[at..at + |w|], b[at + i..at + i + n], w[i..i + n];
    forall j | 0 <= j < n ensures x[j] == y[j] {
      assert part[i + j] == w[i + j];
    }
  }

  lemma {:induction false} WordReads(b: seq<byte>, at: nat, ws: seq<nat>, i: nat)
    requires i < |ws| && ws[i] < UINT64_TOP
    requires at + 8 * |ws| <= |b| && b[at..at + 8 * |ws|] == Words(ws)
    ensures Number(b, at + 8 * i, 8) == ws[i]
  {
    hide Words, ToBytes, FromBytes, Pow256;
    WordsAt(ws, i);
    Within(b, at, Words(ws), 8 * i, 8);
    Fit(ws[i]);
    FromToBytes(ws[i], WORD);
  }

  lemma {:induction false} RecordOffset(record: Item, w: seq<byte>)
    requires record.Record? && w == Written(record)
    ensures |w| == 60 && w[16..24] == ToBytes(record.offsetCounters, WORD)
  {
    var ws, words := RecordWords(record), Words(RecordWords(record));
    assert |ws| == 6 && ws[2] == record.offsetCounters;
    WordsAt(ws, 2);
    assert w[16..24] == words[16..24];
  }

  /** The third word of a data record is its counter offset. */
  lemma {:induction false} OffsetReads(b: seq<byte>, at: nat, record: Item, w: seq<byte>)
    requires record.Record? && record.offsetCounters < UINT64_TOP && w == Written(record)
    requires at + |w| <= |b| && b[at..at + |w|] == w
    ensures Number(b, at + 16, 8) == record.offsetCounters
  {
    RecordOffset(record, w);
    Within(b, at, w, 16, 8);
    Fit(record.offsetCounters);
    FromToBytes(record.offsetCounters, WORD);
  }

  // ---------------------------------------------------------------------------
  // The whole file
  // ---------------------------------------------------------------------------

  lemma {:induction false} Reassoc(all: seq<Item>, x: seq<Item>, y: seq<Item>, z: seq<Item>, last: seq<Item>)
    requires all == x + y + z
    ensures all + last == x + y + (z + last)
  {}

  lemma {:induction false} ValuesSplit(ds: seq<ProfData>, k: nat, x: seq<Item>, y: seq<Item>)
    returns (rest: seq<Item>)
    requires ValidProfs(ds) && k < |ds| && x == ValueRecords(ds[..k]) && y == ValueItems(ds[k])
    ensures ValueRecords(ds) == x + y + rest
    decreases |ds|
  {
    hide ValueRecords, ValueItems;
    var front, last := ds[..|ds| - 1], ds[|ds| - 1];
    assert ds == front + [last];
    ValuesNext(front, last);
    var z := ValueItems(last);
    if k == |front| {
      assert ds[..k] == front;
      rest := [];
      assert x + y + rest == x + y;
    } else {
      assert ds[..k] == front[..k];
      var before := ValuesSplit(front, k, x, y);
      rest := before + z;
      Reassoc(ValueRecords(front), x, y, before, z);
    }
  }

  lemma {:induction false} SplitThree(lies: Placement, at: nat, x: seq<Item>, y: seq<Item>, z: seq<Item>, w: nat)
    requires Held(lies, at, x + y + z) && w == Width(x)
    ensures Held(lies, at + w, y)
  {
    Split(lies, at, x + y, z, Width(x + y));
    Split(lies, at, x, y, w);
  }

  lemma {:induction false} ValueRecordHeld(lies: Placement, at: nat, ds: seq<ProfData>, k: nat, before: nat)
    requires ValidProfs(ds) && k < |ds| && Held(lies, at, ValueRecords(ds)) && before == SumValues(ds[..k])
    ensures Held(lies, at + before, ValueItems(ds[k]))
  {
    hide ValueRecords, ValueItems, SumValues, Held;
    var x, y := ValueRecords(ds[..k]), ValueItems(ds[k]);
    var rest := ValuesSplit(ds, k, x, y);
    ValuesWidth(ds[..k]);
    SplitThree(lies, at, x, y, rest, before);
  }

  lemma {:induction false} ValuesHeld(lies: Placement, ss: seq<Section>, p: Pass, size: nat)
    requires ValidProfs(Datas(ss)) && p.names == LastNames(ss) && Held(lies, 0, Image(ss, p)) && size == FixedSize(ss)
    ensures Held(lies, size, ValueRecords(Datas(ss)))
  {
    hide Held, ImageFront, ValueRecords, FixedSize;
    FrontSize(ss, p, size);
    Split(lies, 0, ImageFront(ss, p), ValueRecords(Datas(ss)), size);
  }

  lemma {:induction false} FrontSize(ss: seq<Section>, p: Pass, size: nat)
    requires p.names == LastNames(ss) && size == FixedSize(ss)
    ensures Width(ImageFront(ss, p)) == size
  {
    FrontWidth(ss, p);
  }

  /** In every buffer that holds the file, the value record of each function is found and read back. */
  lemma {:induction false} FileValuesReadBack(b: seq<byte>, ss: seq<Section>, k: nat)
    requires ValidProfs(Datas(ss)) && CountersMatch(ss) && Held(LiesIn(b), 0, Image(ss, SizePass(ss)))
    requires k < |Datas(ss)| && Profiled(Datas(ss)[k]) && HasSites(Datas(ss)[k])
    ensures ReadValueRecord(NumbersIn(b), FixedSize(ss) + SumValues(Datas(ss)[..k]))
            == (ValueSize(Datas(ss)[k]), KindsOf(Datas(ss)[k]))
  {
    hide Image, Held, Faithful, ReadValueRecord, ValueSize, KindsOf, SumValues, Datas;
    var p := SizePass(ss);
    BufferIsFaithful(b);
    FileValuesRead(LiesIn(b), NumbersIn(b), ss, p, k, Datas(ss), FixedSize(ss), SumValues(Datas(ss)[..k]));
  }

  lemma {:induction false} FileValuesRead(lies: Placement, number: Numbers, ss: seq<Section>, p: Pass, k: nat,
                                          ds: seq<ProfData>, size: nat, before: nat)
    requires Faithful(lies, number) && ds == Datas(ss) && ValidProfs(ds) && p.names == LastNames(ss)
    requires Held(lies, 0, Image(ss, p)) && k < |ds| && Profiled(ds[k]) && HasSites(ds[k])
    requires size == FixedSize(ss) && before == SumValues(ds[..k])
    ensures ReadValueRecord(number, size + before) == (ValueSize(ds[k]), KindsOf(ds[k]))
  {
    hide *;
    ValuesHeld(lies, ss, p, size);
    ValueRecordHeld(lies, size, ds, k, before);
    ValueRecordReadsBack(lies, number, size + before, ds[k]);
  }

  lemma {:induction false} EmittedLies(lies: Placement, items: seq<Item>, pos: nat, item: Item)
    requires Held(lies, 0, items) && EmittedAt(items, pos, item)
    ensures lies(pos, item)
  {
    var i: nat :| i < |items| && items[i] == item && Width(items[..i]) == pos;
    assert LiesNth(lies, 0, items, i);
  }

  /**
   In every buffer that holds the file, the offset stored in a function's data
   record leads a reader from the record to that function's counters.
   */
  lemma {:induction false} FileCountersReadBack(b: seq<byte>, ss: seq<Section>, k: nat)
    requires ValidProfs(Datas(ss)) && TotalSize(ss) < UINT32_TOP && Held(LiesIn(b), 0, Image(ss, SizePass(ss)))
    requires SameOrder(Datas(ss), Cnts(ss)) && k < |Datas(ss)|
    ensures var at := RecordPos(k) + Number(b, RecordPos(k) + 16, 8);
            && at + 8 * Datas(ss)[k].numCounters <= |b|
            && b[at..at + 8 * Datas(ss)[k].numCounters] == Cnts(ss)[k]
  {
    hide Image, SizePass, Held, EmittedAt, CounterOffset, U64, Number, TotalSize, Datas, Cnts;
    var offset := U64(CounterOffset(Datas(ss), |Datas(ss)|, k));
    CounterOffsetLands(ss, k);
    OffsetBound(ss, k);
    CounterReads(b, Image(ss, SizePass(ss)), RecordPos(k), Record(Datas(ss)[k], offset), Cnts(ss)[k]);
  }

  lemma {:induction false} CounterReads(b: seq<byte>, items: seq<Item>, pos: nat, record: Item, counters: seq<byte>)
    requires Held(LiesIn(b), 0, items) && record.Record? && record.offsetCounters < UINT64_TOP
    requires EmittedAt(items, pos, record) && EmittedAt(items, pos + record.offsetCounters, Raw(counters))
    ensures Number(b, pos + 16, 8) == record.offsetCounters
    ensures var at := pos + record.offsetCounters;
            at + |counters| <= |b| && b[at..at + |counters|] == counters
  {
    hide Held, EmittedAt, Words, RecordTail;
    EmittedLies(LiesIn(b), items, pos, record);
    EmittedLies(LiesIn(b), items, pos + record.offsetCounters, Raw(counters));
    OffsetReads(b, pos, record, Written(record));
  }

  lemma {:induction false} OffsetBound(ss: seq<Section>, k: nat)
    requires ValidProfs(Datas(ss)) && TotalSize(ss) < UINT32_TOP
    requires SameOrder(Datas(ss), Cnts(ss)) && k < |Datas(ss)|
    ensures U64(CounterOffset(Datas(ss), |Datas(ss)|, k)) < UINT64_TOP
  {
    SameOrderSums(Datas(ss), Cnts(ss), k);
    SumBytesPrefix(Cnts(ss), k);
  }

  // ---------------------------------------------------------------------------
  // Header, data records and names
  // ---------------------------------------------------------------------------

  /** The first item of a file is its header. */
  lemma {:induction false} HeaderLies(b: seq<byte>, ss: seq<Section>, p: Pass)
    requires ValidProfs(Datas(ss)) && Held(LiesIn(b), 0, Image(ss, p))
    ensures ItemAt(b, 0, HeaderOf(p))
  {
    hide ItemAt, HeaderOf, Records, CounterItems, NamesItems, ValueRecords, Datas, Cnts, ValidProfs;
    assert LiesNth(LiesIn(b), 0, Image(ss, p), 0);
    assert Image(ss, p)[0] == HeaderOf(p) && Image(ss, p)[..0] == [];
  }

  lemma {:induction false} HeaderWordReads(b: seq<byte>, h: Item, i: nat)
    requires h.Header? && ItemAt(b, 0, h) && i < 14 && HeaderWords(h)[i] < UINT64_TOP
    ensures Number(b, 8 * i, 8) == HeaderWords(h)[i]
  {
    hide Words, Number;
    assert Written(h) == Words(HeaderWords(h));
    assert b[0..0 + 8 * 14] == Words(HeaderWords(h));
    WordReads(b, 0, HeaderWords(h), i);
  }

  /**
   Below 4 GB the numbers of the header are those of the module. The counters are
   counted in 32 bits, which the counter bytes of such a file fill exactly.
   */
  lemma {:induction false} PassCounts(ss: seq<Section>, p: Pass)
    requires ValidProfs(Datas(ss)) && CountersMatch(ss) && TotalSize(ss) < UINT32_TOP && p == SizePass(ss)
    ensures p.numData == |Datas(ss)| && p.names == LastNames(ss) && |NamesBytes(p.names)| < UINT32_TOP
    ensures 8 * p.numCounters == SumBytes(Cnts(ss)) && p.numCounters < UINT32_TOP && |Datas(ss)| < UINT32_TOP
    ensures p.numCounters == SumCounters(Datas(ss)) <==> SumCounters(Datas(ss)) < 0x1_0000_0000
    ensures SameOrder(Datas(ss), Cnts(ss)) ==> p.numCounters == SumCounters(Datas(ss))
  {
    var q := PassIsExact(ss);
    Low32Exact(SumBytes(Cnts(ss)));
    Low32Exact(SumCounters(Datas(ss)));
    if SameOrder(Datas(ss), Cnts(ss)) {
      SameOrderTotal(Datas(ss), Cnts(ss));
    }
  }

  lemma {:induction false} SameOrderTotal(ds: seq<ProfData>, cs: seq<seq<byte>>)
    requires SameOrder(ds, cs)
    ensures SumBytes(cs) == 8 * SumCounters(ds)
  {
    SameOrderSums(ds, cs, |ds|);
    assert cs[..|ds|] == cs && ds[..|ds|] == ds;
  }

  /** Two functions that declare 2^31 counters each and have none: the counts match, and the header says 0. */
  lemma {:induction false} HeaderCountWraps(d: ProfData, ss: seq<Section>)
    requires d == ProfData(0, 0, 0, 0, 0, 0x8000_0000, 0, 0, None) && ss == [Data(d), Data(d)]
    ensures Datas(ss) == [d, d] && Cnts(ss) == [] && ValidProfs([d, d]) && CountersMatch(ss)
    ensures SumCounters([d, d]) == 0x1_0000_0000 && SizePass(ss).numCounters == 0
  {
    SectionsInOrder(ss, 0);
    SectionsInOrder(ss, 1);
    assert ss[..0] == [] && ss[..2] == ss && [] + [d] == [d] && [d] + [d] == [d, d];
    CountersNext([], d);
    CountersNext([d], d);
    assert SumBytes([]) == 0 && Low32(0) == 0 && Low32(0x1_0000_0000) == 0;
  }

  /**
   In every buffer that holds the file a reader finds the header of the format:
   the magic number, version 9 with the flags for instrumented code and memory
   profiles, and the counts of the sections that follow.
   */
  lemma {:induction false} FileHeaderReadsBack(b: seq<byte>, ss: seq<Section>)
    requires ValidProfs(Datas(ss)) && CountersMatch(ss) && TotalSize(ss) < UINT32_TOP
    requires Held(LiesIn(b), 0, Image(ss, SizePass(ss)))
    ensures Number(b, 0, 8) == 0xFF6C_7072_6F66_7281
    ensures Number(b, 8, 8) == 9 + 0x100_0000_0000_0000 + 0x4000_0000_0000_0000
    ensures Number(b, 24, 8) == |Datas(ss)|
    ensures 8 * Number(b, 40, 8) == SumBytes(Cnts(ss))
    ensures Number(b, 40, 8) == SumCounters(Datas(ss)) <==> SumCounters(Datas(ss)) < 0x1_0000_0000
    ensures SameOrder(Datas(ss), Cnts(ss)) ==> Number(b, 40, 8) == SumCounters(Datas(ss))
    ensures Number(b, 72, 8) == |NamesBytes(LastNames(ss))|
    ensures Number(b, 80, 8) == 64 * |Datas(ss)|
    ensures Number(b, 104, 8) == 1
    ensures forall i | i in {16, 32, 48, 56, 64, 88, 96} :: Number(b, i, 8) == 0
  {
    hide Number, Image, SizePass, Held, TotalSize, CountersMatch, SumBytes, SumCounters, Datas, Cnts, ItemAt;
    hide ValidProfs, SameOrder;
    var p := SizePass(ss);
    PassCounts(ss, p);
    HeaderLies(b, ss, p);
    HeaderReads(b, p, HeaderOf(p));
  }

  lemma {:induction false} HeaderReads(b: seq<byte>, p: Pass, h: Item)
    requires h == HeaderOf(p) && ItemAt(b, 0, h)
    requires p.numData < UINT32_TOP && p.numCounters < UINT32_TOP && |NamesBytes(p.names)| < UINT32_TOP
    ensures Number(b, 0, 8) == 0xFF6C_7072_6F66_7281
    ensures Number(b, 8, 8) == 9 + 0x100_0000_0000_0000 + 0x4000_0000_0000_0000
    ensures Number(b, 24, 8) == p.numData
    ensures Number(b, 40, 8) == p.numCounters
    ensures Number(b, 72, 8) == |NamesBytes(p.names)|
    ensures Number(b, 80, 8) == 64 * p.numData
    ensures Number(b, 104, 8) == 1
    ensures forall i | i in {16, 32, 48, 56, 64, 88, 96} :: Number(b, i, 8) == 0
  {
    hide Number, ItemAt;
    var ws := HeaderWords(h);
    forall i: nat | i < 14 ensures Number(b, 8 * i, 8) == ws[i] {
      HeaderWordReads(b, h, i);
    }
    assert Number(b, 8 * 0, 8) == ws[0] && Number(b, 8 * 1, 8) == ws[1] && Number(b, 8 * 2, 8) == ws[2];
    assert Number(b, 8 * 3, 8) == ws[3] && Number(b, 8 * 4, 8) == ws[4] && Number(b, 8 * 5, 8) == ws[5];
    assert Number(b, 8 * 6, 8) == ws[6] && Number(b, 8 * 7, 8) == ws[7] && Number(b, 8 * 8, 8) == ws[8];
    assert Number(b, 8 * 9, 8) == ws[9] && Number(b, 8 * 10, 8) == ws[10] && Number(b, 8 * 11, 8) == ws[11];
    assert Number(b, 8 * 12, 8) == ws[12] && Number(b, 8 * 13, 8) == ws[13];
  }

  /** The fields of a record fit their C types. */
  predicate InWidths(d: ProfData) {
    && d.funcMd5 < UINT64_TOP && d.funcHash < UINT64_TOP && d.offsetBitmaps < UINT64_TOP
    && d.funcPtr < UINT64_TOP && d.valuesPtr < UINT64_TOP
    && d.numCounters < UINT32_TOP && d.sites0 < 0x1_0000 && d.sites1 < 0x1_0000
  }

  lemma {:induction false} RecordWordReads(b: seq<byte>, at: nat, record: Item, i: nat)
    requires record.Record? && ItemAt(b, at, record) && i < 6 && RecordWords(record)[i] < UINT64_TOP
    ensures Number(b, at + 8 * i, 8) == RecordWords(record)[i]
  {
    hide Words, Number, RecordTail;
    var w, ws := Written(record), RecordWords(record);
    assert w == Words(ws) + RecordTail(record.prof);
    Within(b, at, w, 0, 48);
    assert w[0..48] == Words(ws);
    WordReads(b, at, ws, i);
  }

  lemma {:induction false} PartReads(b: seq<byte>, at: nat, w: seq<byte>, i: nat, n: nat, value: nat)
    requires at + |w| <= |b| && b[at..at + |w|] == w && i + n <= |w| && w[i..i + n] == ToBytes(value, n)
    requires value < Pow256(n)
    ensures Number(b, at + i, n) == value
  {
    Within(b, at, w, i, n);
    FromToBytes(value, n);
  }

  lemma {:induction false} RecordTailReads(b: seq<byte>, at: nat, record: Item)
    requires record.Record? && ItemAt(b, at, record) && InWidths(record.prof)
    ensures Number(b, at + 48, 4) == record.prof.numCounters && Number(b, at + 52, 2) == record.prof.sites0
    ensures Number(b, at + 54, 2) == record.prof.sites1 && Number(b, at + 56, 4) == 0
  {
    hide Words, Number, ToBytes, Pow256;
    var d, w := record.prof, Written(record);
    assert w == Words(RecordWords(record)) + RecordTail(d);
    SmallWidths();
    var tail := RecordTail(d);
    assert w[48..52] == ToBytes(d.numCounters, 4);
    PartReads(b, at, w, 48, 4, d.numCounters);
    assert w[52..54] == ToBytes(d.sites0, 2);
    PartReads(b, at, w, 52, 2, d.sites0);
    assert w[54..56] == ToBytes(d.sites1, 2);
    PartReads(b, at, w, 54, 2, d.sites1);
    assert w[56..60] == ToBytes(0, 4);
    PartReads(b, at, w, 56, 4, 0);
  }

  lemma {:induction false} SmallWidths()
    ensures Pow256(2) == 0x1_0000 && Pow256(4) == 0x1_0000_0000
  {
    assert Pow256(2) == 0x1_0000;
  }

  /** In every buffer that holds the file, record `k` gives the profile data of function `k`. */
  lemma {:induction false} FileRecordReadsBack(b: seq<byte>, ss: seq<Section>, k: nat)
    requires ValidProfs(Datas(ss)) && CountersMatch(ss) && TotalSize(ss) < UINT32_TOP
    requires Held(LiesIn(b), 0, Image(ss, SizePass(ss))) && k < |Datas(ss)| && InWidths(Datas(ss)[k])
    ensures var (d, at) := (Datas(ss)[k], 112 + 64 * k);
            && Number(b, at, 8) == d.funcMd5 && Number(b, at + 8, 8) == d.funcHash
            && Number(b, at + 24, 8) == d.offsetBitmaps && Number(b, at + 32, 8) == d.funcPtr
            && Number(b, at + 40, 8) == d.valuesPtr && Number(b, at + 48, 4) == d.numCounters
            && Number(b, at + 52, 2) == d.sites0 && Number(b, at + 54, 2) == d.sites1
            && Number(b, at + 56, 4) == 0
  {
    hide Number, Image, Held, EmittedAt, TotalSize, Datas, CounterOffset, U64, ItemAt, ValidProfs, InWidths;
    var p := PassIsExact(ss);
    var record := Record(Datas(ss)[k], U64(CounterOffset(Datas(ss), |Datas(ss)|, k)));
    RecordEmittedAt(ss, p, k);
    EmittedLies(LiesIn(b), Image(ss, p), RecordPos(k), record);
    RecordReads(b, RecordPos(k), record, record.prof);
  }

  lemma {:induction false} RecordReads(b: seq<byte>, at: nat, record: Item, d: ProfData)
    requires record.Record? && record.prof == d && ItemAt(b, at, record) && InWidths(d)
    ensures Number(b, at, 8) == d.funcMd5 && Number(b, at + 8, 8) == d.funcHash
    ensures Number(b, at + 24, 8) == d.offsetBitmaps && Number(b, at + 32, 8) == d.funcPtr
    ensures Number(b, at + 40, 8) == d.valuesPtr && Number(b, at + 48, 4) == d.numCounters
    ensures Number(b, at + 52, 2) == d.sites0 && Number(b, at + 54, 2) == d.sites1
    ensures Number(b, at + 56, 4) == 0
  {
    hide Number, ItemAt;
    RecordTailReads(b, at, record);
    RecordWordReads(b, at, record, 0);
    RecordWordReads(b, at, record, 1);
    RecordWordReads(b, at, record, 3);
    RecordWordReads(b, at, record, 4);
    RecordWordReads(b, at, record, 5);
  }

  lemma {:induction false} LastNamesIs(ss: seq<Section>, j: nat)
    requires j < |ss| && ss[j].Names? && forall i | j < i < |ss| :: !ss[i].Names?
    ensures LastNames(ss) == Some(ss[j].bytes)
    decreases |ss|
  {
    if j < |ss| - 1 {
      LastNamesIs(ss[..|ss| - 1], j);
    }
  }

  lemma {:induction false} NamesHeld(b: seq<byte>, ss: seq<Section>, p: Pass, at: nat)
    requires ValidProfs(Datas(ss)) && Held(LiesIn(b), 0, Image(ss, p))
    requires at == 112 + 64 * |Datas(ss)| + SumBytes(Cnts(ss))
    ensures Held(LiesIn(b), at, NamesItems(p.names))
  {
    hide Held, LiesIn, NamesItems, ValueRecords, HeaderOf, Records, CounterItems, Datas, Cnts, SumBytes, ValidProfs;
    var (h, r, c) := ([HeaderOf(p)], Records(Datas(ss), p.numData), CounterItems(Cnts(ss)));
    RecordsWidth(Datas(ss), p.numData);
    CountersWidth(Cnts(ss));
    HeaderWidth(p);
    WidthConcat(h, r);
    WidthConcat(h + r, c);
    SplitThree(LiesIn(b), 0, h + r + c, NamesItems(p.names), ValueRecords(Datas(ss)), at);
  }

  lemma {:induction false} HeaderWidth(p: Pass)
    ensures Width([HeaderOf(p)]) == 112
  {
    WidthOne(HeaderOf(p));
  }

  lemma {:induction false} NamesRead(b: seq<byte>, at: nat, names: seq<byte>)
    requires names != [] && Held(LiesIn(b), at, NamesItems(Some(names)))
    ensures at + |names| <= |b| && b[at..at + |names|] == names
    ensures forall i | |names| <= i && i / 8 == (|names| - 1) / 8 :: at + i < |b| && b[at + i] == 0
  {
    var pad := seq(Padding(|names|), _ => 0);
    if Padding(|names|) == 0 {
      assert NamesItems(Some(names)) == [Raw(names)];
      HeldOne(LiesIn(b), at, Raw(names));
    } else {
      assert NamesItems(Some(names)) == [Raw(names), Raw(pad)];
      SplitTwo(LiesIn(b), at, Raw(names), Raw(pad));
      PadReads(b, at + |names|, pad);
    }
  }

  lemma {:induction false} PadReads(b: seq<byte>, at: nat, pad: seq<byte>)
    requires ItemAt(b, at, Raw(pad))
    ensures at + |pad| <= |b| && forall i | at <= i < at + |pad| :: b[i] == pad[i - at]
  {
    forall i | at <= i < at + |pad| ensures b[i] == pad[i - at] {
      assert b[at..at + |pad|][i - at] == pad[i - at];
    }
  }

  /**
   In every buffer that holds the file, the bytes of the last names section follow
   the counters, and zeros fill the eight-byte word in which they end.
   */
  lemma {:induction false} FileNamesReadBack(b: seq<byte>, ss: seq<Section>, j: nat)
    requires ValidProfs(Datas(ss)) && CountersMatch(ss) && Held(LiesIn(b), 0, Image(ss, SizePass(ss)))
    requires j < |ss| && ss[j].Names? && ss[j].bytes != [] && forall i | j < i < |ss| :: !ss[i].Names?
    ensures var (at, names) := (112 + 64 * |Datas(ss)| + SumBytes(Cnts(ss)), ss[j].bytes);
            && at + |names| <= |b| && b[at..at + |names|] == names
            && forall i | |names| <= i && i / 8 == (|names| - 1) / 8 :: at + i < |b| && b[at + i] == 0
  {
    hide Held, Image, LiesIn, Datas, Cnts, SumBytes, SumCounters, ValidProfs, NamesItems, CountersMatch, LastNames;
    var p, at := SizePass(ss), 112 + 64 * |Datas(ss)| + SumBytes(Cnts(ss));
    LastNamesIs(ss, j);
    assert p.names == Some(ss[j].bytes);
    hide SizePass;
    NamesHeld(b, ss, p, at);
    NamesRead(b, at, ss[j].bytes);
  }

  lemma {:induction false} SumBytesPrefix(cs: seq<seq<byte>>, k: nat)
    requires k <= |cs|
    ensures SumBytes(cs[..k]) <= SumBytes(cs)
    decreases |cs|
  {
    if k == |cs| {
      assert cs[..k] == cs;
    } else {
      SumBytesPrefix(cs[..|cs| - 1], k);
      assert cs[..|cs| - 1][..k] == cs[..k];
    }
  }
}
