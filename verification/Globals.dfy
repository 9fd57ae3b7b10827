/**
 Globals of an AOT module: the data offsets the loader assigns to imported and
 defined globals, and the global data area filled at instantiation.
 */
module Globals {
  import opened Machine
  import opened Arithmetic
  import opened InitExpr

  const NULL_REF: nat := 0xFFFF_FFFF

  datatype ValueType = I32 | I64 | F32 | F64 | V128 | FuncRefType | ExternRefType

  datatype Global = Global(valType: ValueType, init: Expr)

  /** `wasm_value_type_size` without GC. */
  function TypeSize(t: ValueType): nat {
    match t
    case I64 | F64 => 8
    case V128 => 16
    case _ => 4
  }

  // ---------------------------------------------------------------------------
  // Offsets
  // ---------------------------------------------------------------------------

  /** The first `i` slots take `Sum(sizes[..i])` bytes: where slot `i` starts. */
  function Start(sizes: seq<nat>, i: nat): nat
    requires i <= |sizes|
  {
    Sum(sizes[..i])
  }

  lemma StartStep(sizes: seq<nat>, i: nat)
    requires i < |sizes|
    ensures Start(sizes, i + 1) == Start(sizes, i) + sizes[i]
  {
    assert sizes[..i + 1][..i] == sizes[..i];
  }

  lemma {:induction false} StartMonotone(sizes: seq<nat>, i: nat, j: nat)
    requires i <= j <= |sizes|
    ensures Start(sizes, i) <= Start(sizes, j)
    decreases j
  {
    if i < j {
      StartStep(sizes, j - 1);
      StartMonotone(sizes, i, j - 1);
    }
  }

  /** Slots are disjoint, in order, and fill the area. */
  lemma {:induction false} SlotsTile(sizes: seq<nat>, i: nat, j: nat)
    requires i < j < |sizes|
    ensures Start(sizes, i) + sizes[i] <= Start(sizes, j)
    ensures Start(sizes, j) + sizes[j] <= Start(sizes, |sizes|) == Sum(sizes)
  {
    StartStep(sizes, i);
    StartStep(sizes, j);
    StartMonotone(sizes, i + 1, j);
    StartMonotone(sizes, j + 1, |sizes|);
    assert sizes[..|sizes|] == sizes;
  }

  /** The uint32 offsets from slot `first` on are the starts of their slots, up to wrap-around. */
  ghost predicate OffsetsFrom(sizes: seq<nat>, first: nat, offsets: seq<nat>) {
    && first + |offsets| <= |sizes|
    && forall i | 0 <= i < |offsets| :: offsets[i] == Low32(Start(sizes, first + i))
  }

  ghost predicate Small(sizes: seq<nat>) {
    forall i | 0 <= i < |sizes| :: sizes[i] <= 16
  }

  lemma WrapAdd(x: nat, s: nat)
    requires s <= 16
    ensures Add32(Low32(x), s) == Low32(x + s)
  {}

  /** The loop state after some offsets: the next offset and the size so far. */
  ghost predicate Progress(sizes: seq<nat>, first: nat, offsets: seq<nat>, dataOffset: nat, dataSize: nat) {
    && OffsetsFrom(sizes, first, offsets)
    && dataOffset == Low32(Start(sizes, first + |offsets|))
    && dataSize == Low32(Start(sizes, first + |offsets|))
  }

  lemma OffsetsAppend(sizes: seq<nat>, first: nat, offsets: seq<nat>, next: nat)
    requires OffsetsFrom(sizes, first, offsets) && first + |offsets| < |sizes|
    requires next == Low32(Start(sizes, first + |offsets|))
    ensures OffsetsFrom(sizes, first, offsets + [next])
  {}

  lemma ProgressStep(sizes: seq<nat>, first: nat, offsets: seq<nat>, dataOffset: nat, dataSize: nat, size: nat)
    requires Progress(sizes, first, offsets, dataOffset, dataSize) && first + |offsets| < |sizes|
    requires size == sizes[first + |offsets|] <= 16
    ensures Progress(sizes, first, offsets + [dataOffset], Add32(dataOffset, size), Add32(dataSize, size))
  {
    var k := first + |offsets|;
    StartStep(sizes, k);
    WrapAdd(Start(sizes, k), size);
    OffsetsAppend(sizes, first, offsets, dataOffset);
  }

  /** The loop both loaders share: size, offset, running offset and total. */
  method AssignOffsets(own: seq<nat>, ghost before: seq<nat>, dataOffset0: nat, dataSize0: nat)
    returns (offsets: seq<nat>, dataOffset: nat, dataSize: nat)
    requires Small(own)
    requires dataOffset0 == Low32(Sum(before)) && dataSize0 == Low32(Sum(before))
    ensures |offsets| == |own| && OffsetsFrom(before + own, |before|, offsets)
    ensures dataOffset == Low32(Sum(before + own)) && dataSize == Low32(Sum(before + own))
  {
    ghost var sizes := before + own;
    offsets, dataOffset, dataSize := [], dataOffset0, dataSize0;
    assert sizes[..|before|] == before;
    for i := 0 to |own|
      invariant |offsets| == i && Progress(sizes, |before|, offsets, dataOffset, dataSize)
    {
      ProgressStep(sizes, |before|, offsets, dataOffset, dataSize, own[i]);
      offsets := offsets + [dataOffset];
      dataOffset := Add32(dataOffset, own[i]);
      dataSize := Add32(dataSize, own[i]);
    }
    assert sizes[..|sizes|] == sizes;
  }

  function ImportSizes(imports: seq<ImportGlobal>): (s: seq<nat>)
    ensures |s| == |imports|
  {
    seq(|imports|, i requires 0 <= i < |imports| => imports[i].width)
  }

  function GlobalSizes(globals: seq<Global>): (s: seq<nat>)
    ensures |s| == |globals| && Small(s)
  {
    seq(|globals|, i requires 0 <= i < |globals| => TypeSize(globals[i].valType))
  }

  function Sizes(imports: seq<ImportGlobal>, globals: seq<Global>): seq<nat> {
    ImportSizes(imports) + GlobalSizes(globals)
  }

  /** `load_import_globals` and `load_globals`: the second continues behind the last import. */
  method LoadOffsets(imports: seq<ImportGlobal>, globals: seq<Global>)
    returns (importOffsets: seq<nat>, globalOffsets: seq<nat>, dataSize: nat)
    requires Small(ImportSizes(imports))
    ensures |importOffsets| == |imports| && |globalOffsets| == |globals|
    ensures OffsetsFrom(Sizes(imports, globals), 0, importOffsets)
    ensures OffsetsFrom(Sizes(imports, globals), |imports|, globalOffsets)
    ensures dataSize == Low32(Sum(Sizes(imports, globals)))
  {
    var importSizes, globalSizes := ImportSizes(imports), GlobalSizes(globals);
    assert [] + importSizes == importSizes;
    var end;
    importOffsets, end, dataSize := AssignOffsets(importSizes, [], 0, 0);
    var dataOffset := 0;
    if |imports| > 0 {
      var last := |imports| - 1;
      StartStep(importSizes, last);
      WrapAdd(Start(importSizes, last), importSizes[last]);
      assert importSizes[..|importSizes|] == importSizes;
      dataOffset := Add32(importOffsets[last], importSizes[last]);
    }
    globalOffsets, end, dataSize := AssignOffsets(globalSizes, importSizes, dataOffset, dataSize);
    PrefixOffsets(importSizes, globalSizes, importOffsets);
  }

  lemma PrefixOffsets(a: seq<nat>, b: seq<nat>, offsets: seq<nat>)
    requires OffsetsFrom(a, 0, offsets)
    ensures OffsetsFrom(a + b, 0, offsets)
  {
    forall i | 0 <= i < |offsets| ensures offsets[i] == Low32(Start(a + b, i)) {
      assert (a + b)[..i] == a[..i];
      assert offsets[i] == Low32(Start(a, 0 + i));
    }
  }

  // ---------------------------------------------------------------------------
  // Instantiation
  // ---------------------------------------------------------------------------

  /** The value a defined global starts with. */
  function InitialValue(imports: seq<ImportGlobal>, g: Global): Option<nat> {
    var e := g.init;
    if e.Binary? || e.tag == GET_GLOBAL || e.tag == I32_CONST || e.tag == I64_CONST then Eval(imports, e)
    else if e.tag == REFNULL_CONST then Some(NULL_REF)
    else Some(FromBytes(e.operand))
  }

  function ImportSlots(imports: seq<ImportGlobal>): (s: seq<seq<byte>>)
    ensures |s| == |imports|
  {
    seq(|imports|, i requires 0 <= i < |imports| => ToBytes(imports[i].linked, imports[i].width))
  }

  /** The slots of the defined globals; a global without a value makes instantiation fail. */
  function GlobalSlots(imports: seq<ImportGlobal>, globals: seq<Global>): (s: seq<seq<byte>>)
    ensures |s| == |globals|
  {
    seq(|globals|, i requires 0 <= i < |globals| => GlobalSlot(imports, globals[i]))
  }

  function GlobalSlot(imports: seq<ImportGlobal>, g: Global): (s: seq<byte>)
    ensures |s| == TypeSize(g.valType)
  {
    var v := InitialValue(imports, g);
    ToBytes(if v.Some? then v.value else 0, TypeSize(g.valType))
  }

  function Slots(imports: seq<ImportGlobal>, globals: seq<Global>): seq<seq<byte>> {
    ImportSlots(imports) + GlobalSlots(imports, globals)
  }

  lemma SlotLengths(imports: seq<ImportGlobal>, globals: seq<Global>)
    ensures Lengths(Slots(imports, globals)) == Sizes(imports, globals)
  {}

  function Flatten(slots: seq<seq<byte>>): seq<byte> {
    if slots == [] then [] else Flatten(slots[..|slots| - 1]) + slots[|slots| - 1]
  }

  lemma {:induction false} FlattenLength(slots: seq<seq<byte>>)
    ensures |Flatten(slots)| == Sum(Lengths(slots))
    decreases |slots|
  {
    if slots != [] {
      var n := |slots| - 1;
      FlattenLength(slots[..n]);
      assert Lengths(slots)[..n] == Lengths(slots[..n]);
    }
  }

  /** Slot `i` of the flattened area lies at its start. */
  lemma {:induction false} FlattenSlot(slots: seq<seq<byte>>, i: nat)
    requires i < |slots|
    ensures var start := Start(Lengths(slots), i);
            start + |slots[i]| <= |Flatten(slots)| && Flatten(slots)[start..start + |slots[i]|] == slots[i]
    decreases |slots|
  {
    var n := |slots| - 1;
    var front := slots[..n];
    assert Lengths(slots)[..n] == Lengths(front);
    FlattenLength(front);
    if i < n {
      FlattenSlot(front, i);
      assert Lengths(slots)[..i] == Lengths(front)[..i];
      var start := Start(Lengths(front), i);
      assert Flatten(slots)[start..start + |slots[i]|] == Flatten(front)[start..start + |slots[i]|];
    }
  }

  /** `init_global_data` and the store of a null reference: copy bytes to the cursor. */
  method Store(data: array<byte>, p: nat, bytes: seq<byte>)
    requires p + |bytes| <= data.Length
    modifies data
    ensures data[..p + |bytes|] == old(data[..p]) + bytes
    ensures data[p + |bytes|..] == old(data[p + |bytes|..])
  {
    for i := 0 to |bytes|
      invariant data[..p + i] == old(data[..p]) + bytes[..i]
      invariant data[p + i..] == old(data[p + i..])
    {
      ghost var tail := data[p + i..];
      data[p + i] := bytes[i];
      assert data[..p + i + 1] == data[..p + i] + [bytes[i]];
      assert data[p + i + 1..] == tail[1..];
      assert old(data[p + i + 1..]) == old(data[p + i..])[1..];
    }
    assert bytes[..|bytes|] == bytes;
  }

  lemma FlattenNext(slots: seq<seq<byte>>, i: nat)
    requires i < |slots|
    ensures Flatten(slots[..i + 1]) == Flatten(slots[..i]) + slots[i]
  {
    assert slots[..i + 1][..i] == slots[..i];
  }

  /** The first `i` slots are in place, the cursor is behind them, and what follows is still zero. */
  ghost predicate Filled(data: seq<byte>, p: nat, slots: seq<seq<byte>>, i: nat) {
    && i <= |slots| && |data| == Sum(Lengths(slots))
    && p == Start(Lengths(slots), i) && p <= |data|
    && data[..p] == Flatten(slots[..i])
    && data[p..] == Zeros(|data| - p)
  }

  lemma NothingFilled(data: seq<byte>, slots: seq<seq<byte>>)
    requires |data| == Sum(Lengths(slots)) && data == Zeros(|data|)
    ensures Filled(data, 0, slots, 0)
  {
    assert slots[..0] == [];
  }

  lemma {:induction false} AllFilled(data: seq<byte>, p: nat, slots: seq<seq<byte>>)
    requires Filled(data, p, slots, |slots|)
    ensures p == |data| && data == Flatten(slots)
  {
    assert Lengths(slots)[..|slots|] == Lengths(slots) && slots[..|slots|] == slots;
    assert data[..p] == data;
  }

  /** Stores bytes at the cursor; what they leave of the slot stays zero. */
  method StoreSlot(data: array<byte>, p: nat, ghost slots: seq<seq<byte>>, ghost i: nat, bytes: seq<byte>)
    requires i < |slots| && Filled(data[..], p, slots, i)
    requires |bytes| <= |slots[i]| && slots[i] == bytes + Zeros(|slots[i]| - |bytes|)
    modifies data
    ensures Filled(data[..], p + |slots[i]|, slots, i + 1)
  {
    StartStep(Lengths(slots), i);
    StartMonotone(Lengths(slots), i + 1, |slots|);
    assert Lengths(slots)[..|slots|] == Lengths(slots);
    FlattenNext(slots, i);
    assert data[..][..p] == data[..p] && data[..][p..] == data[p..];
    ghost var was := data[..];
    Store(data, p, bytes);
    SlotStored(was, data[..], p, bytes, |slots[i]|);
  }

  lemma {:induction false} SlotStored(was: seq<byte>, now: seq<byte>, p: nat, bytes: seq<byte>, size: nat)
    requires |now| == |was| && |bytes| <= size && p + size <= |was| && was[p..] == Zeros(|was| - p)
    requires now[..p + |bytes|] == was[..p] + bytes && now[p + |bytes|..] == was[p + |bytes|..]
    ensures now[..p + size] == was[..p] + (bytes + Zeros(size - |bytes|))
    ensures now[p + size..] == Zeros(|now| - (p + size))
  {
    var from := p + |bytes|;
    forall j | from <= j < |was| ensures now[j] == 0 {
      assert now[from..][j - from] == was[from..][j - from];
      assert was[p..][j - p] == 0;
    }
  }

  /** How many bytes have been stored when the first `i` globals have been. */
  lemma Walked(slots: seq<seq<byte>>, i: nat)
    requires i <= |slots|
    ensures |Flatten(slots[..i])| == Start(Lengths(slots), i)
  {
    FlattenLength(slots[..i]);
    assert Lengths(slots[..i]) == Lengths(slots)[..i];
  }

  /**
   The assertions of instantiation, in both loops and at the end, compare what
   the loader computed with the bytes really stored so far. They hold for every
   module, even one whose global data would wrap around.
   */
  lemma OffsetsAreWalked(imports: seq<ImportGlobal>, globals: seq<Global>, importOffsets: seq<nat>,
                         globalOffsets: seq<nat>, dataSize: nat)
    requires |importOffsets| == |imports| && OffsetsFrom(Sizes(imports, globals), 0, importOffsets)
    requires |globalOffsets| == |globals| && OffsetsFrom(Sizes(imports, globals), |imports|, globalOffsets)
    requires dataSize == Low32(Sum(Sizes(imports, globals)))
    ensures forall i | 0 <= i < |imports| :: importOffsets[i] == Low32(|Flatten(Slots(imports, globals)[..i])|)
    ensures forall i | 0 <= i < |globals| ::
              globalOffsets[i] == Low32(|Flatten(Slots(imports, globals)[..|imports| + i])|)
    ensures dataSize == Low32(|Flatten(Slots(imports, globals))|)
  {
    var slots := Slots(imports, globals);
    SlotLengths(imports, globals);
    FlattenLength(slots);
    forall i | 0 <= i < |imports| ensures importOffsets[i] == Low32(|Flatten(slots[..i])|) {
      Walked(slots, i);
    }
    forall i | 0 <= i < |globals| ensures globalOffsets[i] == Low32(|Flatten(slots[..|imports| + i])|) {
      Walked(slots, |imports| + i);
    }
  }

  /** The imported half of `global_instantiate`. */
  method InstantiateImports(imports: seq<ImportGlobal>, ghost globals: seq<Global>, offsets: seq<nat>,
                            data: array<byte>)
    returns (p: nat)
    requires |offsets| == |imports| && OffsetsFrom(Sizes(imports, globals), 0, offsets)
    requires data.Length == Sum(Sizes(imports, globals)) && data[..] == Zeros(data.Length)
    modifies data
    ensures Filled(data[..], p, Slots(imports, globals), |imports|)
  {
    ghost var slots := Slots(imports, globals);
    SlotLengths(imports, globals);
    NothingFilled(data[..], slots);
    p := 0;
    for i := 0 to |imports|
      invariant Filled(data[..], p, slots, i)
    {
      assert offsets[i] == Low32(p);
      StoreSlot(data, p, slots, i, ToBytes(imports[i].linked, imports[i].width));
      p := p + imports[i].width;
    }
  }

  /** A null reference takes four bytes; a wider slot continues with zeros. */
  lemma {:induction false} NullBytes(size: nat)
    requires 4 <= size
    ensures ToBytes(NULL_REF, size) == ToBytes(NULL_REF, 4) + Zeros(size - 4)
  {
    assert Pow256(4) == 0x1_0000_0000;
    ToBytesWider(NULL_REF, 4, size);
  }

  /**
   The bytes stored for one defined global, by the kind of its initializer: all of
   its slot, or, for a null reference in a wider global, the part that is not zero.
   */
  method InitBytes(imports: seq<ImportGlobal>, g: Global) returns (r: Option<seq<byte>>)
    ensures r.Some? <==> InitialValue(imports, g).Some?
    ensures r.Some? ==> |r.value| <= TypeSize(g.valType)
                        && GlobalSlot(imports, g) == r.value + Zeros(TypeSize(g.valType) - |r.value|)
  {
    var size := TypeSize(g.valType);
    if g.init.Binary? || g.init.tag == GET_GLOBAL || g.init.tag == I32_CONST || g.init.tag == I64_CONST {
      var value := Eval(imports, g.init);
      if value.None? {
        return None;
      }
      return Some(ToBytes(value.value, size));
    } else if g.init.tag == REFNULL_CONST {
      NullBytes(size);
      return Some(ToBytes(NULL_REF, 4));
    } else {
      return Some(ToBytes(FromBytes(g.init.operand), size));
    }
  }

  /** The first `n` defined globals have a value. */
  ghost predicate Valued(imports: seq<ImportGlobal>, globals: seq<Global>, n: nat)
    requires n <= |globals|
  {
    n == 0 || (Valued(imports, globals, n - 1) && InitialValue(imports, globals[n - 1]).Some?)
  }

  lemma {:induction false} ValuedPrefix(imports: seq<ImportGlobal>, globals: seq<Global>, m: nat, n: nat)
    requires m <= n <= |globals| && Valued(imports, globals, n)
    ensures Valued(imports, globals, m)
    decreases n
  {
    if m < n {
      ValuedPrefix(imports, globals, m, n - 1);
    }
  }

  lemma {:induction false} NotValued(imports: seq<ImportGlobal>, globals: seq<Global>, i: nat)
    requires i < |globals| && InitialValue(imports, globals[i]).None?
    ensures !Valued(imports, globals, |globals|)
  {
    if Valued(imports, globals, |globals|) {
      ValuedPrefix(imports, globals, i + 1, |globals|);
    }
  }

  /** The slots from `first` on are those of the defined globals. */
  ghost predicate GlobalSlotsFrom(slots: seq<seq<byte>>, first: nat, imports: seq<ImportGlobal>, globals: seq<Global>) {
    && |slots| == first + |globals|
    && forall i | 0 <= i < |globals| :: slots[first + i] == GlobalSlot(imports, globals[i])
  }

  /** One defined global: its offset assertion, its value and its slot. */
  method InstantiateGlobal(imports: seq<ImportGlobal>, g: Global, offset: nat, data: array<byte>, p: nat,
                           ghost slots: seq<seq<byte>>, ghost k: nat)
    returns (ok: bool, next: nat)
    requires k < |slots| && slots[k] == GlobalSlot(imports, g)
    requires Filled(data[..], p, slots, k) && offset == Low32(Start(Lengths(slots), k))
    modifies data
    ensures offset == Low32(p)
    ensures ok <==> InitialValue(imports, g).Some?
    ensures ok ==> Filled(data[..], next, slots, k + 1)
  {
    assert offset == Low32(p);
    var bytes := InitBytes(imports, g);
    if bytes.None? {
      return false, p;
    }
    StoreSlot(data, p, slots, k, bytes.value);
    return true, p + TypeSize(g.valType);
  }

  /** The defined half of `global_instantiate`. */
  method InstantiateDefined(imports: seq<ImportGlobal>, globals: seq<Global>, offsets: seq<nat>,
                            data: array<byte>, start: nat, ghost slots: seq<seq<byte>>, ghost first: nat)
    returns (ok: bool, p: nat)
    requires |offsets| == |globals| && OffsetsFrom(Lengths(slots), first, offsets)
    requires GlobalSlotsFrom(slots, first, imports, globals)
    requires Filled(data[..], start, slots, first)
    modifies data
    ensures ok <==> Valued(imports, globals, |globals|)
    ensures ok ==> Filled(data[..], p, slots, |slots|)
  {
    hide Filled, GlobalSlot, InitialValue, Start;
    p := start;
    var i := 0;
    while i < |globals|
      invariant 0 <= i <= |globals|
      invariant Filled(data[..], p, slots, first + i)
      invariant Valued(imports, globals, i)
    {
      ok, p := InstantiateGlobal(imports, globals[i], offsets[i], data, p, slots, first + i);
      if !ok {
        NotValued(imports, globals, i);
        return;
      }
      i := i + 1;
    }
    ok := true;
  }

  lemma SlotsAreGlobals(imports: seq<ImportGlobal>, globals: seq<Global>)
    ensures GlobalSlotsFrom(Slots(imports, globals), |imports|, imports, globals)
  {}

  /** `global_instantiate`. */
  method GlobalInstantiate(imports: seq<ImportGlobal>, globals: seq<Global>, importOffsets: seq<nat>,
                           globalOffsets: seq<nat>, dataSize: nat, data: array<byte>)
    returns (ok: bool)
    requires |importOffsets| == |imports| && OffsetsFrom(Sizes(imports, globals), 0, importOffsets)
    requires |globalOffsets| == |globals| && OffsetsFrom(Sizes(imports, globals), |imports|, globalOffsets)
    requires dataSize == Low32(Sum(Sizes(imports, globals))) && data.Length == Sum(Sizes(imports, globals))
    requires data[..] == Zeros(data.Length)
    modifies data
    ensures ok <==> Valued(imports, globals, |globals|)
    ensures ok ==> data[..] == Flatten(Slots(imports, globals))
  {
    ghost var slots := Slots(imports, globals);
    SlotLengths(imports, globals);
    SlotsAreGlobals(imports, globals);
    var p := InstantiateImports(imports, globals, importOffsets, data);
    ok, p := InstantiateDefined(imports, globals, globalOffsets, data, p, slots, |imports|);
    if ok {
      AllFilled(data[..], p, slots);
      assert dataSize == Low32(p);
    }
  }

  // ---------------------------------------------------------------------------
  // What a reader of a global finds
  // ---------------------------------------------------------------------------

  /** Reading `size` bytes at `offset` of the global data. */
  ghost predicate Reads(data: seq<byte>, offset: nat, size: nat, value: nat) {
    offset + size <= |data| && FromBytes(data[offset..offset + size]) == value
  }

  lemma {:induction false} SlotReads(slots: seq<seq<byte>>, i: nat, value: nat, size: nat)
    requires i < |slots| && slots[i] == ToBytes(value, size) && value < Pow256(size)
    ensures Reads(Flatten(slots), Start(Lengths(slots), i), size, value)
  {
    FlattenSlot(slots, i);
    FromToBytes(value, size);
  }

  /**
   After instantiation, reading any global at the offset the loader assigned
   gives its own initial value, as long as the whole area is below 4 GB.
   */
  lemma GlobalReadsBack(imports: seq<ImportGlobal>, globals: seq<Global>, importOffsets: seq<nat>,
                        globalOffsets: seq<nat>, data: seq<byte>)
    requires |importOffsets| == |imports| && OffsetsFrom(Sizes(imports, globals), 0, importOffsets)
    requires |globalOffsets| == |globals| && OffsetsFrom(Sizes(imports, globals), |imports|, globalOffsets)
    requires Sum(Sizes(imports, globals)) < UINT32_TOP && data == Flatten(Slots(imports, globals))
    ensures forall i | 0 <= i < |imports| && imports[i].linked < Pow256(imports[i].width) ::
              Reads(data, importOffsets[i], imports[i].width, imports[i].linked)
    ensures forall i | 0 <= i < |globals| && InitialValue(imports, globals[i]).Some?
                       && InitialValue(imports, globals[i]).value < Pow256(TypeSize(globals[i].valType)) ::
              Reads(data, globalOffsets[i], TypeSize(globals[i].valType), InitialValue(imports, globals[i]).value)
  {
    var slots, sizes := Slots(imports, globals), Sizes(imports, globals);
    SlotLengths(imports, globals);
    forall i | 0 <= i < |imports| && imports[i].linked < Pow256(imports[i].width)
      ensures Reads(data, importOffsets[i], imports[i].width, imports[i].linked)
    {
      OffsetExact(sizes, 0, importOffsets, i);
      SlotReads(slots, i, imports[i].linked, imports[i].width);
    }
    forall i | 0 <= i < |globals| && InitialValue(imports, globals[i]).Some?
               && InitialValue(imports, globals[i]).value < Pow256(TypeSize(globals[i].valType))
      ensures Reads(data, globalOffsets[i], TypeSize(globals[i].valType), InitialValue(imports, globals[i]).value)
    {
      OffsetExact(sizes, |imports|, globalOffsets, i);
      SlotReads(slots, |imports| + i, InitialValue(imports, globals[i]).value, TypeSize(globals[i].valType));
    }
  }

  /** A constant of the global's own type, by opcode and number of bytes. */
  predicate Literal(t: ValueType, tag: byte, n: nat) {
    match t
    case I32 => tag == 0x41 && n == 4
    case I64 => tag == 0x42 && n == 8
    case F32 => tag == 0x43 && n == 4
    case F64 => tag == 0x44 && n == 8
    case V128 => tag == 0xFD && n == 16
    case FuncRefType => tag == 0xD2 && n == 4
    case ExternRefType => false
  }

  lemma {:induction false} LiteralSlot(imports: seq<ImportGlobal>, g: Global)
    requires g.init.Unary?
    ensures Literal(g.valType, g.init.tag, |g.init.operand|) ==> GlobalSlot(imports, g) == g.init.operand
    ensures g.init.tag == 0xD0 && (g.valType.FuncRefType? || g.valType.ExternRefType?) ==>
              GlobalSlot(imports, g) == [0xFF, 0xFF, 0xFF, 0xFF]
  {
    ToFromBytes(g.init.operand);
    FromBytesBound(g.init.operand);
    NullReference();
    if Literal(g.valType, g.init.tag, |g.init.operand|) {
      ConstantValue(imports, g);
    }
  }

  lemma {:induction false} NullReference()
    ensures ToBytes(NULL_REF, 4) == [0xFF, 0xFF, 0xFF, 0xFF]
  {
    assert ToBytes(0xFFFF, 2) == [0xFF, 0xFF];
  }

  lemma {:induction false} ConstantValue(imports: seq<ImportGlobal>, g: Global)
    requires g.init.Unary? && Literal(g.valType, g.init.tag, |g.init.operand|)
    ensures InitialValue(imports, g) == Some(FromBytes(g.init.operand))
  {}

  /**
   After instantiation, a global initialized by a constant of its type, be it a
   number, a vector or a function index, holds exactly the bytes of the constant,
   and a null reference four bytes 0xFF.
   */
  lemma {:induction false} ConstantReadsBack(imports: seq<ImportGlobal>, globals: seq<Global>,
                                             globalOffsets: seq<nat>, data: seq<byte>, i: nat)
    requires |globalOffsets| == |globals| && OffsetsFrom(Sizes(imports, globals), |imports|, globalOffsets)
    requires Sum(Sizes(imports, globals)) < UINT32_TOP && data == Flatten(Slots(imports, globals))
    requires i < |globals| && globals[i].init.Unary?
    ensures var (g, at) := (globals[i], globalOffsets[i]);
            && (Literal(g.valType, g.init.tag, |g.init.operand|) ==>
                  var n := |g.init.operand|; at + n <= |data| && data[at..at + n] == g.init.operand)
            && (g.init.tag == 0xD0 && (g.valType.FuncRefType? || g.valType.ExternRefType?) ==>
                  at + 4 <= |data| && data[at..at + 4] == [0xFF, 0xFF, 0xFF, 0xFF])
  {
    hide InitialValue, GlobalSlot, TypeSize, Flatten, Literal;
    var slots, sizes := Slots(imports, globals), Sizes(imports, globals);
    SlotLengths(imports, globals);
    OffsetExact(sizes, |imports|, globalOffsets, i);
    FlattenSlot(slots, |imports| + i);
    LiteralSlot(imports, globals[i]);
  }

  lemma {:induction false} OffsetExact(sizes: seq<nat>, first: nat, offsets: seq<nat>, i: nat)
    requires OffsetsFrom(sizes, first, offsets) && i < |offsets| && Sum(sizes) < UINT32_TOP
    ensures offsets[i] == Start(sizes, first + i)
  {
    StartMonotone(sizes, first + i, |sizes|);
    assert sizes[..|sizes|] == sizes;
  }
}
