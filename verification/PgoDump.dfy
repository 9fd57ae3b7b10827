/**
 The raw profile dump of statically instrumented AOT code: a pass that computes
 the size and a pass that emits header, data records, counters, names and value
 records. The output is a sequence of little-endian fields, raw bytes and bytes
 the emitter skips over.
 */
module PgoDump {
  import opened Machine
  import opened Arithmetic
  import opened ValueSite

  /** A function's profile record; `values` has one node list per value site, kind 0 first. */
  datatype ProfData = ProfData(funcMd5: nat, funcHash: nat, offsetBitmaps: nat, funcPtr: nat,
                               valuesPtr: nat, numCounters: nat, sites0: nat, sites1: nat,
                               values: Option<seq<seq<Node>>>)

  /** The data sections of a module, by the prefix of their names. */
  datatype Section = Data(prof: ProfData) | Counters(bytes: seq<byte>) | Names(bytes: seq<byte>) | Other

  /**
   What is emitted: the two fixed-size structures of the format, single
   little-endian fields, raw bytes, and bytes the cursor skips.
   */
  datatype Item =
    | Header(magic: nat, version: nat, numData: nat, numCounters: nat, namesSize: nat, countersDelta: nat)
    | Record(prof: ProfData, offsetCounters: nat)
    | Field(width: nat, value: nat)
    | Raw(bytes: seq<byte>)
    | Gap(size: nat)

  ghost predicate ValidProf(d: ProfData) {
    d.values.Some? ==> |d.values.value| == d.sites0 + d.sites1
  }

  ghost predicate ValidSections(sections: seq<Section>) {
    forall i | 0 <= i < |sections| :: sections[i].Data? ==> ValidProf(sections[i].prof)
  }

  // ---------------------------------------------------------------------------
  // Widths
  // ---------------------------------------------------------------------------

  function ItemWidth(item: Item): nat {
    match item
    case Header(_, _, _, _, _, _) => 112
    case Record(_, _) => 64
    case Field(width, _) => width
    case Raw(bytes) => |bytes|
    case Gap(size) => size
  }

  function Width(items: seq<Item>): nat {
    if items == [] then 0 else Width(items[..|items| - 1]) + ItemWidth(items[|items| - 1])
  }

  lemma {:induction false} WidthConcat(a: seq<Item>, b: seq<Item>)
    ensures Width(a + b) == Width(a) + Width(b)
    decreases |b|
  {
    if b == [] {
      assert a + b == a;
    } else {
      assert (a + b)[..|a + b| - 1] == a + b[..|b| - 1];
      WidthConcat(a, b[..|b| - 1]);
    }
  }

  lemma {:induction false} WidthOne(item: Item)
    ensures Width([item]) == ItemWidth(item)
  {
    assert [item][..0] == [];
  }

  // ---------------------------------------------------------------------------
  // Value records
  // ---------------------------------------------------------------------------

  function NumSites(d: ProfData, kind: nat): nat {
    if kind == 0 then d.sites0 else d.sites1
  }

  /** The node lists of one kind; without a value table all lists are empty. */
  function SiteLists(d: ProfData, kind: nat): (r: seq<seq<Node>>)
    requires d.values.Some? ==> |d.values.value| == d.sites0 + d.sites1
    ensures |r| == NumSites(d, kind)
  {
    if d.values.None? then seq(NumSites(d, kind), _ => [])
    else if kind == 0 then d.values.value[..d.sites0]
    else d.values.value[d.sites0..]
  }

  /** One byte per site: the length of its list. */
  function CountItems(lists: seq<seq<Node>>): seq<Item> {
    if lists == [] then [] else CountItems(lists[..|lists| - 1]) + [Field(1, |lists[|lists| - 1]| % 256)]
  }

  /** The bytes skipped so that the counts end on a multiple of eight. */
  function GapItems(n: nat): seq<Item> {
    if n % 8 == 0 then [] else [Gap(8 - n % 8)]
  }

  function NodePairs(nodes: seq<Node>): seq<Item> {
    if nodes == [] then []
    else NodePairs(nodes[..|nodes| - 1]) + [Field(8, nodes[|nodes| - 1].value), Field(8, nodes[|nodes| - 1].count)]
  }

  function NodeItems(lists: seq<seq<Node>>): seq<Item> {
    if lists == [] then [] else NodeItems(lists[..|lists| - 1]) + NodePairs(lists[|lists| - 1])
  }

  function KindItems(kind: nat, lists: seq<seq<Node>>): seq<Item> {
    if lists == [] then []
    else [Field(4, kind), Field(4, |lists|)] + CountItems(lists) + GapItems(|lists|) + NodeItems(lists)
  }

  function NumKinds(d: ProfData): nat {
    if d.sites0 > 0 && d.sites1 > 0 then 2 else 1
  }

  predicate HasSites(d: ProfData) {
    d.sites0 > 0 || d.sites1 > 0
  }

  /** What follows the TotalSize field of a value record. */
  function ValueBody(d: ProfData): seq<Item>
    requires d.values.Some? ==> |d.values.value| == d.sites0 + d.sites1
  {
    [Field(4, NumKinds(d))] + KindItems(0, SiteLists(d, 0)) + KindItems(1, SiteLists(d, 1))
  }

  /** A value record: its own size first. */
  function ValueItems(d: ProfData): seq<Item>
    requires d.values.Some? ==> |d.values.value| == d.sites0 + d.sites1
  {
    if HasSites(d) then [Field(4, 4 + Width(ValueBody(d)))] + ValueBody(d) else []
  }

  // Sizes of the same, as the size pass adds them up.

  function Align8(n: nat): nat {
    (n + 7) / 8 * 8
  }

  function NodeTotal(lists: seq<seq<Node>>): nat {
    if lists == [] then 0 else NodeTotal(lists[..|lists| - 1]) + |lists[|lists| - 1]|
  }

  function KindSize(lists: seq<seq<Node>>): nat {
    if lists == [] then 0 else 8 + Align8(|lists|) + 16 * NodeTotal(lists)
  }

  function ValueSize(d: ProfData): nat
    requires d.values.Some? ==> |d.values.value| == d.sites0 + d.sites1
  {
    if HasSites(d) then 8 + KindSize(SiteLists(d, 0)) + KindSize(SiteLists(d, 1)) else 0
  }

  lemma {:induction false} CountWidth(lists: seq<seq<Node>>)
    ensures Width(CountItems(lists)) == |lists|
    decreases |lists|
  {
    if lists != [] {
      var last := Field(1, |lists[|lists| - 1]| % 256);
      CountWidth(lists[..|lists| - 1]);
      WidthConcat(CountItems(lists[..|lists| - 1]), [last]);
      WidthOne(last);
    }
  }

  lemma {:induction false} GapWidth(n: nat)
    ensures n + Width(GapItems(n)) == Align8(n)
  {
    if n % 8 != 0 {
      WidthOne(Gap(8 - n % 8));
    }
  }

  lemma {:induction false} PairsWidth(nodes: seq<Node>)
    ensures Width(NodePairs(nodes)) == 16 * |nodes|
    decreases |nodes|
  {
    if nodes != [] {
      var node := nodes[|nodes| - 1];
      PairsWidth(nodes[..|nodes| - 1]);
      TwoWidth(Field(8, node.value), Field(8, node.count));
      WidthConcat(NodePairs(nodes[..|nodes| - 1]), [Field(8, node.value), Field(8, node.count)]);
    }
  }

  lemma {:induction false} TwoWidth(a: Item, b: Item)
    ensures Width([a, b]) == ItemWidth(a) + ItemWidth(b)
  {
    assert [a, b] == [a] + [b];
    WidthConcat([a], [b]);
    WidthOne(a);
    WidthOne(b);
  }

  lemma {:induction false} NodesWidth(lists: seq<seq<Node>>)
    ensures Width(NodeItems(lists)) == 16 * NodeTotal(lists)
    decreases |lists|
  {
    if lists != [] {
      var (front, last) := (lists[..|lists| - 1], lists[|lists| - 1]);
      NodesWidth(front);
      PairsWidth(last);
      WidthConcat(NodeItems(front), NodePairs(last));
    }
  }

  lemma {:induction false} KindWidth(kind: nat, lists: seq<seq<Node>>)
    ensures Width(KindItems(kind, lists)) == KindSize(lists)
  {
    if lists != [] {
      var head := [Field(4, kind), Field(4, |lists|)];
      TwoWidth(Field(4, kind), Field(4, |lists|));
      CountWidth(lists);
      GapWidth(|lists|);
      NodesWidth(lists);
      WidthConcat(head, CountItems(lists));
      WidthConcat(head + CountItems(lists), GapItems(|lists|));
      WidthConcat(head + CountItems(lists) + GapItems(|lists|), NodeItems(lists));
    }
  }

  /** The emitted value record has the size the size pass added for it, and says so in its first field. */
  lemma {:induction false} ValueRecordSize(d: ProfData)
    requires ValidProf(d)
    ensures Width(ValueItems(d)) == ValueSize(d)
    ensures HasSites(d) ==> ValueItems(d)[0] == Field(4, Width(ValueItems(d)))
  {
    if HasSites(d) {
      var (k0, k1) := (KindItems(0, SiteLists(d, 0)), KindItems(1, SiteLists(d, 1)));
      var head := [Field(4, NumKinds(d))];
      KindWidth(0, SiteLists(d, 0));
      KindWidth(1, SiteLists(d, 1));
      WidthOne(Field(4, NumKinds(d)));
      WidthConcat(head, k0);
      WidthConcat(head + k0, k1);
      var total := Field(4, 4 + Width(ValueBody(d)));
      WidthOne(total);
      WidthConcat([total], ValueBody(d));
    }
  }

  // ---------------------------------------------------------------------------
  // The whole file
  // ---------------------------------------------------------------------------

  function Datas(ss: seq<Section>): seq<ProfData> {
    if ss == [] then []
    else Datas(ss[..|ss| - 1]) + (match ss[|ss| - 1] case Data(d) => [d] case _ => [])
  }

  function Cnts(ss: seq<Section>): seq<seq<byte>> {
    if ss == [] then []
    else Cnts(ss[..|ss| - 1]) + (match ss[|ss| - 1] case Counters(c) => [c] case _ => [])
  }

  /** The last names section wins. */
  function LastNames(ss: seq<Section>): Option<seq<byte>> {
    if ss == [] then None
    else match ss[|ss| - 1] case Names(n) => Some(n) case _ => LastNames(ss[..|ss| - 1])
  }

  /**
   The data sections and the counter sections are taken in their order, each as
   often as it occurs and nothing else.
   */
  lemma {:induction false} SectionsInOrder(ss: seq<Section>, i: nat)
    requires i < |ss|
    ensures Datas(ss[..i + 1]) == Datas(ss[..i]) + (if ss[i].Data? then [ss[i].prof] else [])
    ensures Cnts(ss[..i + 1]) == Cnts(ss[..i]) + (if ss[i].Counters? then [ss[i].bytes] else [])
    ensures Datas(ss[..i + 1]) <= Datas(ss) && Cnts(ss[..i + 1]) <= Cnts(ss)
    decreases |ss|
  {
    assert ss[..i + 1][..i] == ss[..i];
    if i == |ss| - 1 {
      assert ss[..i + 1] == ss;
    } else {
      var front := ss[..|ss| - 1];
      SectionsInOrder(front, i);
      assert front[..i + 1] == ss[..i + 1];
    }
  }

  function SumCounters(ds: seq<ProfData>): nat {
    if ds == [] then 0 else SumCounters(ds[..|ds| - 1]) + ds[|ds| - 1].numCounters
  }

  function SumBytes(cs: seq<seq<byte>>): nat {
    if cs == [] then 0 else SumBytes(cs[..|cs| - 1]) + |cs[|cs| - 1]|
  }

  ghost predicate ValidProfs(ds: seq<ProfData>) {
    forall i | 0 <= i < |ds| :: ValidProf(ds[i])
  }

  ghost function SumValues(ds: seq<ProfData>): nat
    requires ValidProfs(ds)
  {
    if ds == [] then 0 else SumValues(ds[..|ds| - 1]) + ValueSize(ds[|ds| - 1])
  }

  /** What the size pass hands to the emitter; all its numbers are uint32. */
  datatype Pass = Pass(total: nat, numData: nat, numCounters: nat, valueSize: nat, names: Option<seq<byte>>)

  function NamesBytes(names: Option<seq<byte>>): seq<byte> {
    if names.Some? then names.value else []
  }

  /** Zero bytes up to the next multiple of eight. */
  function Padding(n: nat): (r: nat)
    ensures r < 8 && (n + r) % 8 == 0
  {
    if n % 8 == 0 then 0 else 8 - n % 8
  }

  ghost function TotalSize(ss: seq<Section>): nat
    requires ValidProfs(Datas(ss))
  {
    var names := |NamesBytes(LastNames(ss))|;
    112 + 64 * |Datas(ss)| + SumBytes(Cnts(ss)) + names + Padding(names) + SumValues(Datas(ss))
  }

  /** The test of the size pass: both sums are uint32, the product is not. */
  predicate CountersMatch(ss: seq<Section>) {
    Low32(SumBytes(Cnts(ss))) == 8 * Low32(SumCounters(Datas(ss)))
  }

  /** On a counter mismatch the size pass returns 0 and leaves every result untouched. */
  ghost function SizePass(ss: seq<Section>): Pass
    requires ValidProfs(Datas(ss))
  {
    if CountersMatch(ss) then
      Pass(Low32(TotalSize(ss)), Low32(|Datas(ss)|), Low32(SumCounters(Datas(ss))), Low32(SumValues(Datas(ss))),
           LastNames(ss))
    else Pass(0, 0, 0, 0, None)
  }

  const MAGIC: nat := 0xFF6C_7072_6F66_7281
  const VERSION: nat := 0x4100_0000_0000_0009

  function HeaderOf(p: Pass): Item {
    Header(MAGIC, VERSION, p.numData, p.numCounters, |NamesBytes(p.names)|, 64 * p.numData)
  }

  /** The relative counter offset of record `k` of a file with `n` records, as the loop computes it. */
  function CounterOffset(ds: seq<ProfData>, n: nat, k: nat): int
    requires k <= |ds|
  {
    64 * n - 64 * k + 8 * SumCounters(ds[..k])
  }

  function U64(x: int): nat {
    if x >= 0 then x else if x >= -0x1_0000_0000_0000_0000 then x + 0x1_0000_0000_0000_0000 else 0
  }

  function Records(ds: seq<ProfData>, n: nat): seq<Item> {
    if ds == [] then []
    else
      var k := |ds| - 1;
      Records(ds[..k], n) + [Record(ds[k], U64(CounterOffset(ds, n, k)))]
  }

  function CounterItems(cs: seq<seq<byte>>): seq<Item> {
    if cs == [] then [] else CounterItems(cs[..|cs| - 1]) + [Raw(cs[|cs| - 1])]
  }

  function NamesItems(names: Option<seq<byte>>): seq<Item> {
    var bytes := NamesBytes(names);
    if bytes == [] then []
    else [Raw(bytes)] + (if Padding(|bytes|) == 0 then [] else [Raw(seq(Padding(|bytes|), _ => 0))])
  }

  ghost function ValueRecords(ds: seq<ProfData>): seq<Item>
    requires ValidProfs(ds)
  {
    if ds == [] then [] else ValueRecords(ds[..|ds| - 1]) + ValueItems(ds[|ds| - 1])
  }

  /** Everything before the value records. */
  function ImageFront(ss: seq<Section>, p: Pass): seq<Item> {
    [HeaderOf(p)] + Records(Datas(ss), p.numData) + CounterItems(Cnts(ss)) + NamesItems(p.names)
  }

  ghost function Image(ss: seq<Section>, p: Pass): seq<Item>
    requires ValidProfs(Datas(ss))
  {
    ImageFront(ss, p) + ValueRecords(Datas(ss))
  }

  // ---------------------------------------------------------------------------
  // The two passes agree
  // ---------------------------------------------------------------------------

  lemma {:induction false} RecordsWidth(ds: seq<ProfData>, n: nat)
    ensures Width(Records(ds, n)) == 64 * |ds|
    decreases |ds|
  {
    if ds != [] {
      var k := |ds| - 1;
      RecordsWidth(ds[..k], n);
      var record := Record(ds[k], U64(CounterOffset(ds, n, k)));
      WidthOne(record);
      WidthConcat(Records(ds[..k], n), [record]);
    }
  }

  lemma {:induction false} CountersWidth(cs: seq<seq<byte>>)
    ensures Width(CounterItems(cs)) == SumBytes(cs)
    decreases |cs|
  {
    if cs != [] {
      CountersWidth(cs[..|cs| - 1]);
      WidthOne(Raw(cs[|cs| - 1]));
      WidthConcat(CounterItems(cs[..|cs| - 1]), [Raw(cs[|cs| - 1])]);
    }
  }

  lemma {:induction false} NamesWidth(names: Option<seq<byte>>)
    ensures var n := |NamesBytes(names)|; Width(NamesItems(names)) == n + Padding(n)
  {
    var bytes := NamesBytes(names);
    if bytes != [] {
      WidthOne(Raw(bytes));
      var pad := Raw(seq(Padding(|bytes|), _ => 0));
      WidthOne(pad);
      WidthConcat([Raw(bytes)], [pad]);
      assert [Raw(bytes)] + [] == [Raw(bytes)];
    }
  }

  lemma {:induction false} ValuesWidth(ds: seq<ProfData>)
    requires ValidProfs(ds)
    ensures Width(ValueRecords(ds)) == SumValues(ds)
    decreases |ds|
  {
    if ds != [] {
      ValuesWidth(ds[..|ds| - 1]);
      ValueRecordSize(ds[|ds| - 1]);
      WidthConcat(ValueRecords(ds[..|ds| - 1]), ValueItems(ds[|ds| - 1]));
    }
  }

  lemma {:induction false} FrontWidth(ss: seq<Section>, p: Pass)
    ensures var names := |NamesBytes(p.names)|;
            Width(ImageFront(ss, p)) == 112 + 64 * |Datas(ss)| + SumBytes(Cnts(ss)) + names + Padding(names)
  {
    var (h, r, c) := ([HeaderOf(p)], Records(Datas(ss), p.numData), CounterItems(Cnts(ss)));
    WidthOne(HeaderOf(p));
    RecordsWidth(Datas(ss), p.numData);
    CountersWidth(Cnts(ss));
    NamesWidth(p.names);
    WidthConcat(h, r);
    WidthConcat(h + r, c);
    WidthConcat(h + r + c, NamesItems(p.names));
  }

  lemma {:induction false} ImageWidth(ss: seq<Section>, p: Pass)
    requires ValidProfs(Datas(ss))
    ensures var names := |NamesBytes(p.names)|;
            Width(Image(ss, p)) == 112 + 64 * |Datas(ss)| + SumBytes(Cnts(ss)) + names + Padding(names)
                                   + SumValues(Datas(ss))
  {
    FrontWidth(ss, p);
    ValuesWidth(Datas(ss));
    WidthConcat(ImageFront(ss, p), ValueRecords(Datas(ss)));
  }

  /**
   The dump writes exactly as many bytes as the size pass computed if and only if
   the counter sections have the declared total size and the file is below 4 GB.
   On a mismatch the size is 0, which every buffer satisfies, and the dump goes
   ahead regardless.
   */
  lemma {:induction false} DumpSizeIff(ss: seq<Section>)
    requires ValidProfs(Datas(ss))
    ensures Width(Image(ss, SizePass(ss))) == SizePass(ss).total <==> CountersMatch(ss) && TotalSize(ss) < UINT32_TOP
  {
    ImageWidth(ss, SizePass(ss));
    Low32Exact(TotalSize(ss));
  }

  /** One data section that declares a counter and a value site, and no counter section. */
  function Mismatched(): seq<Section> {
    [Data(ProfData(0, 0, 0, 0, 0, 1, 1, 0, None))]
  }

  lemma {:induction false} MismatchedData()
    ensures var d := ProfData(0, 0, 0, 0, 0, 1, 1, 0, None);
            Datas(Mismatched()) == [d] && ValidProf(d) && Cnts(Mismatched()) == [] && SumCounters([d]) == 1
  {
    var ss := Mismatched();
    assert ss[..0] == [];
    assert Datas(ss) == Datas([]) + [ss[0].prof];
    assert Cnts(ss) == Cnts([]) + [];
    CountersNext([], ss[0].prof);
    assert [] + [ss[0].prof] == [ss[0].prof];
  }

  /**
   On this module the size pass reports 0 bytes and no value bytes, and the dump
   emits both a file and a value record.
   */
  lemma {:induction false} MismatchIsDumped()
    ensures var ss := Mismatched();
            && ValidProfs(Datas(ss)) && !CountersMatch(ss) && SizePass(ss).total == 0
            && Width(Image(ss, SizePass(ss))) > 0
            && Low32(Width(ValueRecords(Datas(ss)))) != SizePass(ss).valueSize
  {
    var ss := Mismatched();
    MismatchFound(ss);
    hide Image, Width, ValueRecords, SumValues, Datas, Cnts, TotalSize;
    ValueAssertionIff(ss);
    ImageWidth(ss, SizePass(ss));
  }

  lemma {:induction false} MismatchFound(ss: seq<Section>)
    requires ss == Mismatched()
    ensures ValidProfs(Datas(ss)) && !CountersMatch(ss) && SumValues(Datas(ss)) == 24 && Low32(24) == 24
  {
    MismatchedData();
    MismatchedValues(Datas(ss));
    assert SumBytes(Cnts(ss)) == 0 && Low32(0) == 0 && Low32(1) == 1;
  }

  lemma {:induction false} MismatchedValues(ds: seq<ProfData>)
    requires ds == [ProfData(0, 0, 0, 0, 0, 1, 1, 0, None)]
    ensures ValidProfs(ds) && SumValues(ds) == 24 && Low32(24) == 24
  {
    var d := ds[0];
    assert ds == [] + [d];
    ValuesNext([], d);
    var lists := SiteLists(d, 0);
    assert lists == [[]] && lists[..0] == [];
    assert NodeTotal(lists) == 0 && Align8(1) == 8;
    assert SiteLists(d, 1) == [];
  }

  /** Below 4 GB nothing wraps. */
  lemma {:induction false} PassIsExact(ss: seq<Section>) returns (p: Pass)
    requires ValidProfs(Datas(ss)) && CountersMatch(ss) && TotalSize(ss) < UINT32_TOP
    ensures p == SizePass(ss) && p.total == TotalSize(ss) && p.numData == |Datas(ss)| && p.names == LastNames(ss)
  {
    p := SizePass(ss);
    Low32Exact(TotalSize(ss));
    Low32Exact(|Datas(ss)|);
  }

  /** The emitter's closing assertion on the value bytes: it, too, needs matching counters, or no values to count. */
  lemma {:induction false} ValueAssertionIff(ss: seq<Section>)
    requires ValidProfs(Datas(ss))
    ensures Low32(Width(ValueRecords(Datas(ss)))) == SizePass(ss).valueSize
            <==> CountersMatch(ss) || Low32(SumValues(Datas(ss))) == 0
  {
    ValuesWidth(Datas(ss));
  }

  // ---------------------------------------------------------------------------
  // Counter offsets
  // ---------------------------------------------------------------------------

  /** Counter sections come in the order of the records, each of its record's size. */
  ghost predicate SameOrder(ds: seq<ProfData>, cs: seq<seq<byte>>) {
    |cs| == |ds| && forall k | 0 <= k < |ds| :: |cs[k]| == 8 * ds[k].numCounters
  }

  lemma {:induction false} SameOrderSums(ds: seq<ProfData>, cs: seq<seq<byte>>, k: nat)
    requires SameOrder(ds, cs) && k <= |ds|
    ensures SumBytes(cs[..k]) == 8 * SumCounters(ds[..k])
  {
    if k > 0 {
      SameOrderSums(ds, cs, k - 1);
      assert cs[..k][..k - 1] == cs[..k - 1] && ds[..k][..k - 1] == ds[..k - 1];
    }
  }

  lemma {:induction false} SameOrderMatches(ss: seq<Section>)
    requires SameOrder(Datas(ss), Cnts(ss)) && SumBytes(Cnts(ss)) < UINT32_TOP
    ensures CountersMatch(ss)
  {
    var (ds, cs) := (Datas(ss), Cnts(ss));
    SameOrderSums(ds, cs, |ds|);
    assert cs[..|cs|] == cs && ds[..|ds|] == ds;
  }

  /** Record `k` follows the first `k` records. */
  lemma {:induction false} RecordsSplit(ds: seq<ProfData>, n: nat, k: nat) returns (rest: seq<Item>)
    requires k < |ds|
    ensures Records(ds, n) == Records(ds[..k], n) + [Record(ds[k], U64(CounterOffset(ds, n, k)))] + rest
    decreases |ds|
  {
    var last := |ds| - 1;
    var front := ds[..last];
    var final := [Record(ds[last], U64(CounterOffset(ds, n, last)))];
    if k == last {
      rest := [];
    } else {
      var before := RecordsSplit(front, n, k);
      assert ds[..k] == front[..k];
      rest := before + final;
      var (x, y) := (Records(ds[..k], n), [Record(ds[k], U64(CounterOffset(ds, n, k)))]);
      assert x + y + before + final == x + y + rest;
    }
  }

  lemma {:induction false} CountersSplit(cs: seq<seq<byte>>, k: nat) returns (rest: seq<Item>)
    requires k < |cs|
    ensures CounterItems(cs) == CounterItems(cs[..k]) + [Raw(cs[k])] + rest
    decreases |cs|
  {
    var last := |cs| - 1;
    if k == last {
      rest := [];
    } else {
      var before := CountersSplit(cs[..last], k);
      assert cs[..k] == cs[..last][..k];
      rest := before + [Raw(cs[last])];
      var (x, y) := (CounterItems(cs[..k]), [Raw(cs[k])]);
      assert x + y + before + [Raw(cs[last])] == x + y + rest;
    }
  }

  /** `item` is emitted at byte `pos`. */
  ghost predicate EmittedAt(items: seq<Item>, pos: nat, item: Item) {
    exists i | 0 <= i < |items| :: items[i] == item && Width(items[..i]) == pos
  }

  lemma {:induction false} EmittedInside(a: seq<Item>, b: seq<Item>, c: seq<Item>, i: nat)
    requires i < |b|
    ensures EmittedAt(a + b + c, Width(a) + Width(b[..i]), b[i])
  {
    var all := a + b + c;
    assert all[|a| + i] == b[i];
    assert all[..|a| + i] == a + b[..i];
    WidthConcat(a, b[..i]);
  }

  /** Where record `k` starts. */
  function RecordPos(k: nat): nat {
    112 + 64 * k
  }

  /**
   Every record's relative counter offset lands on its own counters: as many
   bytes after the start of record `k` as its offset field says, the file
   continues with the counters of record `k`.
   */
  lemma {:induction false} CounterOffsetLands(ss: seq<Section>, k: nat)
    requires ValidProfs(Datas(ss)) && TotalSize(ss) < UINT32_TOP
    requires SameOrder(Datas(ss), Cnts(ss)) && k < |Datas(ss)|
    ensures var image := Image(ss, SizePass(ss));
            var record := Record(Datas(ss)[k], U64(CounterOffset(Datas(ss), |Datas(ss)|, k)));
            && EmittedAt(image, RecordPos(k), record)
            && EmittedAt(image, RecordPos(k) + record.offsetCounters, Raw(Cnts(ss)[k]))
  {
    SameOrderMatches(ss);
    SameOrderSums(Datas(ss), Cnts(ss), k);
    var p := PassIsExact(ss);
    RecordEmittedAt(ss, p, k);
    CounterBytesAt(ss, p, k);
  }

  lemma {:induction false} RecordEmittedAt(ss: seq<Section>, p: Pass, k: nat)
    requires ValidProfs(Datas(ss)) && p.numData == |Datas(ss)| && k < |Datas(ss)|
    ensures EmittedAt(Image(ss, p), RecordPos(k),
                      Record(Datas(ss)[k], U64(CounterOffset(Datas(ss), |Datas(ss)|, k))))
  {
    var (ds, n) := (Datas(ss), |Datas(ss)|);
    var h := [HeaderOf(p)];
    var record := [Record(ds[k], U64(CounterOffset(ds, n, k)))];
    var after := RecordsSplit(ds, n, k);
    WidthOne(HeaderOf(p));
    RecordsWidth(ds[..k], n);
    WidthConcat(h, Records(ds[..k], n));
    assert record[..0] == [];
    var rest := after + CounterItems(Cnts(ss)) + NamesItems(p.names) + ValueRecords(ds);
    EmittedInside(h + Records(ds[..k], n), record, rest, 0);
    Regroup(h, Records(ds[..k], n), record, after, CounterItems(Cnts(ss)), NamesItems(p.names), ValueRecords(ds));
  }

  lemma {:induction false} Regroup(h: seq<Item>, a: seq<Item>, r: seq<Item>, b: seq<Item>, c: seq<Item>,
                                   n: seq<Item>, v: seq<Item>)
    ensures (h + a) + r + (b + c + n + v) == h + (a + r + b) + c + n + v
  {}

  lemma {:induction false} CounterBytesAt(ss: seq<Section>, p: Pass, k: nat)
    requires ValidProfs(Datas(ss)) && k < |Cnts(ss)|
    ensures EmittedAt(Image(ss, p), 112 + 64 * |Datas(ss)| + SumBytes(Cnts(ss)[..k]), Raw(Cnts(ss)[k]))
  {
    var (ds, cs) := (Datas(ss), Cnts(ss));
    var (h, r, c) := ([HeaderOf(p)], Records(ds, p.numData), CounterItems(cs[..k]));
    var after := CountersSplit(cs, k);
    WidthOne(HeaderOf(p));
    RecordsWidth(ds, p.numData);
    CountersWidth(cs[..k]);
    WidthConcat(h, r);
    WidthConcat(h + r, c);
    var raw := [Raw(cs[k])];
    assert raw[..0] == [];
    EmittedInside(h + r + c, raw, after + NamesItems(p.names) + ValueRecords(ds), 0);
    RegroupCounters(h + r, c, raw, after, NamesItems(p.names), ValueRecords(ds));
  }

  lemma {:induction false} RegroupCounters(h: seq<Item>, a: seq<Item>, r: seq<Item>, b: seq<Item>, n: seq<Item>,
                                           v: seq<Item>)
    ensures (h + a) + r + (b + n + v) == h + (a + r + b) + n + v
  {}

  // ---------------------------------------------------------------------------
  // The size pass
  // ---------------------------------------------------------------------------

  lemma {:induction false} NodeTotalNext(lists: seq<seq<Node>>, k: nat)
    requires k < |lists|
    ensures NodeTotal(lists[..k + 1]) == NodeTotal(lists[..k]) + |lists[k]|
  {
    assert lists[..k + 1][..k] == lists[..k];
  }

  /** One kind on top of a running size: eight bytes, the padded counts, and sixteen bytes per node. */
  method AddKind(before: nat, lists: seq<seq<Node>>, ghost sum: nat, ghost after: nat) returns (size: nat)
    requires before == Low32(sum) && after == sum + KindSize(lists)
    ensures size == Low32(after)
  {
    size := before;
    if |lists| > 0 {
      ghost var upTo: nat := sum + (8 + Align8(|lists|));
      Low32Add(sum, 8 + Align8(|lists|), upTo);
      size := Low32(size + (8 + Align8(|lists|)));
      for k := 0 to |lists|
        invariant size == Low32(upTo) && upTo == sum + 8 + Align8(|lists|) + 16 * NodeTotal(lists[..k])
      {
        NodeTotalNext(lists, k);
        var numValueNodes := |lists[k]|;
        if numValueNodes != 0 {
          Low32Add(upTo, numValueNodes * 16, upTo + numValueNodes * 16);
          size := Low32(size + numValueNodes * 16);
          upTo := upTo + numValueNodes * 16;
        }
      }
      assert lists[..|lists|] == lists;
    }
  }

  lemma {:induction false} DatasNext(ss: seq<Section>, i: nat)
    requires i < |ss|
    ensures Datas(ss[..i + 1]) == if ss[i].Data? then Datas(ss[..i]) + [ss[i].prof] else Datas(ss[..i])
    ensures Cnts(ss[..i + 1]) == if ss[i].Counters? then Cnts(ss[..i]) + [ss[i].bytes] else Cnts(ss[..i])
    ensures LastNames(ss[..i + 1]) == if ss[i].Names? then Some(ss[i].bytes) else LastNames(ss[..i])
  {
    assert ss[..i + 1][..i] == ss[..i];
  }

  lemma {:induction false} CountersNext(ds: seq<ProfData>, d: ProfData)
    ensures SumCounters(ds + [d]) == SumCounters(ds) + d.numCounters
  {
    assert (ds + [d])[..|ds|] == ds;
  }

  lemma {:induction false} ValuesNext(ds: seq<ProfData>, d: ProfData)
    requires ValidProfs(ds) && ValidProf(d)
    ensures ValidProfs(ds + [d]) && SumValues(ds + [d]) == SumValues(ds) + ValueSize(d)
    ensures ValueRecords(ds + [d]) == ValueRecords(ds) + ValueItems(d)
  {
    assert (ds + [d])[..|ds|] == ds;
  }

  lemma {:induction false} SumBytesNext(cs: seq<seq<byte>>, c: seq<byte>)
    ensures SumBytes(cs + [c]) == SumBytes(cs) + |c|
    ensures CounterItems(cs + [c]) == CounterItems(cs) + [Raw(c)]
  {
    assert (cs + [c])[..|cs|] == cs;
  }

  lemma {:induction false} ValidDatas(ss: seq<Section>)
    requires ValidSections(ss)
    ensures ValidProfs(Datas(ss))
    decreases |ss|
  {
    if ss != [] {
      var front := ss[..|ss| - 1];
      assert forall i | 0 <= i < |front| :: front[i] == ss[i];
      ValidDatas(front);
    }
  }

  /** What the first loop gathers. */
  datatype Tally = Tally(numData: nat, numCounters: nat, countersSize: nat, names: Option<seq<byte>>)

  function TallyOf(ss: seq<Section>): Tally {
    Tally(Low32(|Datas(ss)|), Low32(SumCounters(Datas(ss))), Low32(SumBytes(Cnts(ss))), LastNames(ss))
  }

  function TallyNext(t: Tally, s: Section): Tally {
    match s
    case Data(d) => t.(numData := Low32(t.numData + 1), numCounters := Low32(t.numCounters + d.numCounters))
    case Counters(bytes) => t.(countersSize := Low32(t.countersSize + |bytes|))
    case Names(bytes) => t.(names := Some(bytes))
    case Other => t
  }

  lemma {:induction false} TallyStep(ss: seq<Section>, i: nat)
    requires i < |ss|
    ensures TallyOf(ss[..i + 1]) == TallyNext(TallyOf(ss[..i]), ss[i])
  {
    DatasNext(ss, i);
    if ss[i].Data? {
      CountersNext(Datas(ss[..i]), ss[i].prof);
      Low32Add(|Datas(ss[..i])|, 1, |Datas(ss[..i + 1])|);
      Low32Add(SumCounters(Datas(ss[..i])), ss[i].prof.numCounters, SumCounters(Datas(ss[..i + 1])));
    } else if ss[i].Counters? {
      SumBytesNext(Cnts(ss[..i]), ss[i].bytes);
      Low32Add(SumBytes(Cnts(ss[..i])), |ss[i].bytes|, SumBytes(Cnts(ss[..i + 1])));
    }
  }

  /** The first loop: counts, counter bytes and names. */
  method CountSections(ss: seq<Section>) returns (t: Tally)
    ensures t == TallyOf(ss)
  {
    t := Tally(0, 0, 0, None);
    for i := 0 to |ss|
      invariant t == TallyOf(ss[..i])
    {
      TallyStep(ss, i);
      if ss[i].Data? {
        t := t.(numData := Low32(t.numData + 1), numCounters := Low32(t.numCounters + ss[i].prof.numCounters));
      } else if ss[i].Counters? {
        t := t.(countersSize := Low32(t.countersSize + |ss[i].bytes|));
      } else if ss[i].Names? {
        t := t.(names := Some(ss[i].bytes));
      }
    }
    assert ss[..|ss|] == ss;
  }

  /** One record of the second loop. */
  method AddRecord(before: nat, d: ProfData, ghost sum: nat, ghost after: nat) returns (size: nat)
    requires ValidProf(d) && before == Low32(sum) && after == sum + ValueSize(d)
    ensures size == Low32(after)
  {
    size := before;
    if d.sites0 > 0 || d.sites1 > 0 {
      Low32Add(sum, 8, sum + 8);
      size := Low32(size + 8);
      ghost var after0 := sum + 8 + KindSize(SiteLists(d, 0));
      size := AddKind(size, SiteLists(d, 0), sum + 8, after0);
      size := AddKind(size, SiteLists(d, 1), after0, after);
    }
  }

  /** The second loop: the value records, on top of the size so far. */
  method AddValues(before: nat, ss: seq<Section>, ghost sum: nat) returns (size: nat, ghost after: nat)
    requires ValidSections(ss) && before == Low32(sum)
    ensures ValidProfs(Datas(ss)) && after == sum + SumValues(Datas(ss)) && size == Low32(after)
  {
    size, after := before, sum;
    ghost var ds := [];
    for i := 0 to |ss|
      invariant ds == Datas(ss[..i]) && ValidProfs(ds) && after == sum + SumValues(ds) && size == Low32(after)
    {
      DatasNext(ss, i);
      if ss[i].Data? {
        ghost var next := after + ValueSize(ss[i].prof);
        size := AddRecord(size, ss[i].prof, after, next);
        ValuesNext(ds, ss[i].prof);
        ds, after := ds + [ss[i].prof], next;
      }
    }
    assert ss[..|ss|] == ss;
  }

  /** Wrapped operands do not change the wrapped size. */
  lemma {:induction false} FixedSizeWraps(n: nat, counters: nat, names: nat)
    ensures Low32(112 + Low32(n) * 64 + Low32(counters) + names) == Low32(112 + 64 * n + counters + names)
  {
    var q := 64 * (n / 0x1_0000_0000) + counters / 0x1_0000_0000;
    ModShift(112 + Low32(n) * 64 + Low32(counters) + names, 0x1_0000_0000, q);
  }

  /** The size of everything but the value records. */
  ghost function FixedSize(ss: seq<Section>): nat {
    var names := |NamesBytes(LastNames(ss))|;
    112 + 64 * |Datas(ss)| + SumBytes(Cnts(ss)) + names + Padding(names)
  }

  method SizeWithoutValues(t: Tally, ghost ss: seq<Section>) returns (total: nat)
    requires t == TallyOf(ss)
    ensures total == Low32(FixedSize(ss))
  {
    var namesSize := |NamesBytes(t.names)|;
    FixedSizeWraps(|Datas(ss)|, SumBytes(Cnts(ss)), namesSize);
    total := Low32(112 + t.numData * 64 + t.countersSize + namesSize);
    var paddingSize := 8 - namesSize % 8;
    if paddingSize != 8 {
      Low32Add(112 + 64 * |Datas(ss)| + SumBytes(Cnts(ss)) + namesSize, paddingSize, FixedSize(ss));
      total := Low32(total + paddingSize);
    }
  }

  /** `get_pgo_prof_data_size`. */
  method GetPgoProfDataSize(ss: seq<Section>) returns (p: Pass)
    requires ValidSections(ss)
    ensures ValidProfs(Datas(ss)) && p == SizePass(ss)
  {
    ValidDatas(ss);
    var t := CountSections(ss);
    if t.countersSize != t.numCounters * 8 {
      return Pass(0, 0, 0, 0, None);
    }
    var total := SizeWithoutValues(t, ss);
    var withValues;
    ghost var after;
    withValues, after := AddValues(total, ss, FixedSize(ss));
    Low32Sub(FixedSize(ss), SumValues(Datas(ss)), after);
    assert TotalSize(ss) == after;
    p := Pass(withValues, t.numData, t.numCounters, Sub32(withValues, total), t.names);
  }

  // ---------------------------------------------------------------------------
  // The emitter
  // ---------------------------------------------------------------------------

  lemma {:induction false} WidthPut(items: seq<Item>, item: Item)
    ensures Width(items + [item]) == Width(items) + ItemWidth(item)
  {
    assert (items + [item])[..|items|] == items;
  }

  lemma {:induction false} Assoc(a: seq<Item>, b: seq<Item>, c: seq<Item>)
    ensures (a + b) + c == a + (b + c)
  {}

  lemma {:induction false} KindAssembled(o: seq<Item>, a: Item, b: Item, c: seq<Item>, g: seq<Item>, n: seq<Item>)
    ensures o + [a] + [b] + c + g + n == o + ([a, b] + c + g + n)
  {}

  /** Replacing the skipped size field by the real one does not move anything. */
  lemma {:induction false} PatchItem(o: seq<Item>, body: seq<Item>, total: Item)
    ensures (o + [Gap(4)] + body)[|o| := total] == o + ([total] + body)
  {}

  lemma {:induction false} HeadedWidth(o: seq<Item>, head: Item, body: seq<Item>)
    ensures Width(o + [head] + body) == Width(o) + ItemWidth(head) + Width(body)
    ensures Width(o + ([head] + body)) == Width(o) + ItemWidth(head) + Width(body)
  {
    WidthPut(o, head);
    WidthConcat(o + [head], body);
    Assoc(o, [head], body);
  }

  lemma {:induction false} ValueRecordParts(d: ProfData) returns (body: seq<Item>, sized: seq<Item>)
    requires ValidProf(d) && HasSites(d)
    ensures body == ValueBody(d) && sized == ValueItems(d)
    ensures sized == [Field(4, 4 + Width(body))] + body
  {
    body, sized := ValueBody(d), ValueItems(d);
  }

  class Emitter {
    var out: seq<Item>

    constructor ()
      ensures out == []
    {
      out := [];
    }

    /** The cursor: how many bytes have been emitted or skipped. */
    function Pos(): nat
      reads this
    {
      Width(out)
    }

    method Put(item: Item)
      modifies this
      ensures out == old(out) + [item]
    {
      out := out + [item];
    }

    method PutAll(items: seq<Item>)
      modifies this
      ensures out == old(out) + items
    {
      for i := 0 to |items|
        invariant out == old(out) + items[..i]
      {
        Put(items[i]);
        assert items[..i + 1] == items[..i] + [items[i]];
      }
      assert items[..|items|] == items;
    }

    method EmitCounts(lists: seq<seq<Node>>)
      modifies this
      ensures out == old(out) + CountItems(lists)
    {
      for k := 0 to |lists|
        invariant out == old(out) + CountItems(lists[..k])
      {
        assert lists[..k + 1][..k] == lists[..k];
        Put(Field(1, |lists[k]| % 256));
      }
      assert lists[..|lists|] == lists;
    }

    method EmitNodes(nodes: seq<Node>)
      modifies this
      ensures out == old(out) + NodePairs(nodes)
    {
      for k := 0 to |nodes|
        invariant out == old(out) + NodePairs(nodes[..k])
      {
        assert nodes[..k + 1][..k] == nodes[..k];
        Put(Field(8, nodes[k].value));
        Put(Field(8, nodes[k].count));
      }
      assert nodes[..|nodes|] == nodes;
    }

    method EmitAllNodes(lists: seq<seq<Node>>)
      modifies this
      ensures out == old(out) + NodeItems(lists)
    {
      for k := 0 to |lists|
        invariant out == old(out) + NodeItems(lists[..k])
      {
        assert lists[..k + 1][..k] == lists[..k];
        EmitNodes(lists[k]);
      }
      assert lists[..|lists|] == lists;
    }

    method EmitGap(n: nat)
      modifies this
      ensures out == old(out) + GapItems(n)
    {
      if n % 8 != 0 {
        Put(Gap(8 - n % 8));
      } else {
        assert out + [] == out;
      }
    }

    method EmitKind(kind: nat, lists: seq<seq<Node>>)
      modifies this
      ensures out == old(out) + KindItems(kind, lists)
    {
      var n := |lists|;
      if n > 0 {
        Put(Field(4, kind));
        Put(Field(4, n));
        EmitCounts(lists);
        EmitGap(n);
        EmitAllNodes(lists);
        KindAssembled(old(out), Field(4, kind), Field(4, n), CountItems(lists), GapItems(n), NodeItems(lists));
      }
    }

    method EmitValueBody(d: ProfData)
      requires ValidProf(d)
      modifies this
      ensures out == old(out) + ValueBody(d)
    {
      Put(Field(4, NumKinds(d)));
      EmitKind(0, SiteLists(d, 0));
      EmitKind(1, SiteLists(d, 1));
      Assoc(old(out), [Field(4, NumKinds(d))], KindItems(0, SiteLists(d, 0)));
      Assoc(old(out), [Field(4, NumKinds(d))] + KindItems(0, SiteLists(d, 0)), KindItems(1, SiteLists(d, 1)));
    }

    /** Fills in the size field that was skipped at item `at`, byte `start`. */
    method PatchTotalSize(at: nat, start: nat, ghost o: seq<Item>, ghost body: seq<Item>, ghost sized: seq<Item>)
      requires out == o + [Gap(4)] + body && at == |o| && start == Width(o)
      requires sized == [Field(4, 4 + Width(body))] + body
      modifies this
      ensures out == o + sized
    {
      HeadedWidth(o, Gap(4), body);
      var total := Field(4, Pos() - start);
      PatchItem(o, body, total);
      out := out[at := total];
    }

    /** One value record; TotalSize is filled in at the end, from the distance the cursor moved. */
    method EmitValueRecord(d: ProfData)
      requires ValidProf(d)
      modifies this
      ensures out == old(out) + ValueItems(d)
    {
      if d.sites0 > 0 || d.sites1 > 0 {
        var at, start := |out|, Pos();
        Put(Gap(4));
        EmitValueBody(d);
        ghost var body, sized := ValueRecordParts(d);
        PatchTotalSize(at, start, old(out), body, sized);
      } else {
        assert out + [] == out;
      }
    }

    /** `aot_dump_pgo_prof_data_to_buf` into a buffer of `len` bytes. */
    method Dump(ss: seq<Section>, len: nat) returns (written: nat)
      requires out == [] && ValidSections(ss)
      modifies this
      ensures ValidProfs(Datas(ss))
      ensures len < SizePass(ss).total ==> written == 0 && out == []
      ensures len >= SizePass(ss).total ==> written == SizePass(ss).total && out == Image(ss, SizePass(ss))
    {
      var p := GetPgoProfDataSize(ss);
      if len < p.total {
        return 0;
      }
      EmitFile(ss, p);
      written := p.total;
    }

    method EmitFile(ss: seq<Section>, p: Pass)
      requires out == [] && ValidSections(ss)
      modifies this
      ensures ValidProfs(Datas(ss)) && out == Image(ss, p)
    {
      out := [HeaderOf(p)];
      EmitRecords(ss, p.numData);
      EmitCounters(ss);
      PutAll(NamesItems(p.names));
      EmitValues(ss);
    }

    /** The data records, with the running counter offset. */
    method EmitRecords(ss: seq<Section>, n: nat)
      modifies this
      ensures out == old(out) + Records(Datas(ss), n)
    {
      var countersDelta: int, offsetCounters: nat := 64 * n, 0;
      for i := 0 to |ss|
        invariant out == old(out) + Records(Datas(ss[..i]), n)
        invariant countersDelta == 64 * n - 64 * |Datas(ss[..i])| && offsetCounters == 8 * SumCounters(Datas(ss[..i]))
      {
        DatasNext(ss, i);
        if ss[i].Data? {
          var d := ss[i].prof;
          RecordsNext(Datas(ss[..i]), d, n);
          CountersNext(Datas(ss[..i]), d);
          var record := Record(d, U64(countersDelta + offsetCounters));
          Assoc(old(out), Records(Datas(ss[..i]), n), [record]);
          Put(record);
          offsetCounters := offsetCounters + 8 * d.numCounters;
          countersDelta := countersDelta - 64;
        }
      }
      assert ss[..|ss|] == ss;
    }

    method EmitCounters(ss: seq<Section>)
      modifies this
      ensures out == old(out) + CounterItems(Cnts(ss))
    {
      for i := 0 to |ss|
        invariant out == old(out) + CounterItems(Cnts(ss[..i]))
      {
        DatasNext(ss, i);
        if ss[i].Counters? {
          SumBytesNext(Cnts(ss[..i]), ss[i].bytes);
          Assoc(old(out), CounterItems(Cnts(ss[..i])), [Raw(ss[i].bytes)]);
          Put(Raw(ss[i].bytes));
        }
      }
      assert ss[..|ss|] == ss;
    }

    method EmitValues(ss: seq<Section>)
      requires ValidSections(ss)
      modifies this
      ensures ValidProfs(Datas(ss)) && out == old(out) + ValueRecords(Datas(ss))
    {
      for i := 0 to |ss|
        invariant ValidProfs(Datas(ss[..i])) && out == old(out) + ValueRecords(Datas(ss[..i]))
      {
        DatasNext(ss, i);
        if ss[i].Data? {
          ValuesNext(Datas(ss[..i]), ss[i].prof);
          Assoc(old(out), ValueRecords(Datas(ss[..i])), ValueItems(ss[i].prof));
          EmitValueRecord(ss[i].prof);
        }
      }
      assert ss[..|ss|] == ss;
    }
  }

  lemma {:induction false} RecordsNext(ds: seq<ProfData>, d: ProfData, n: nat)
    ensures Records(ds + [d], n) == Records(ds, n) + [Record(d, U64(64 * n - 64 * |ds| + 8 * SumCounters(ds)))]
  {
    assert (ds + [d])[..|ds|] == ds;
  }
}
