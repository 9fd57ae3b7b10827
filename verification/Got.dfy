/**
 The global offset table the AOT loader builds on x86-64: a pass over all
 relocations collects the functions that need an entry, the table is filled, and
 text relocations are then resolved against it. `atoi` is the C function, a
 parameter here.
 */
module Got {
  import opened Machine

  const R_X86_64_GOTPCREL: nat := 9
  const R_X86_64_GOTPCRELX: nat := 41
  const R_X86_64_REX_GOTPCRELX: nat := 42

  const AOT_FUNC_PREFIX: string := "aot_func#"

  /** A relocation; `name` is the symbol name without its terminating zero. */
  datatype Reloc = Reloc(kind: nat, name: string)

  /** What a text relocation to a function resolves to. */
  datatype Address = Slot(index: nat) | Direct(pointer: nat)

  predicate GotKind(r: Reloc) {
    r.kind == R_X86_64_GOTPCREL || r.kind == R_X86_64_GOTPCRELX || r.kind == R_X86_64_REX_GOTPCRELX
  }

  predicate HasPrefix(name: string) {
    AOT_FUNC_PREFIX <= name
  }

  function AfterPrefix(name: string): string
    requires HasPrefix(name)
  {
    name[|AOT_FUNC_PREFIX|..]
  }

  /** The collecting pass sees a name through a zeroed 128-byte buffer; a copy that does not fit leaves it empty. */
  predicate FitsBuffer(name: string) {
    |name| + 1 <= 128
  }

  function Buffered(name: string): string {
    if FitsBuffer(name) then name else ""
  }

  /** Does the collecting pass want an entry for this relocation? */
  predicate Wanted(r: Reloc) {
    GotKind(r) && HasPrefix(Buffered(r.name))
  }

  function WantedIndex(r: Reloc, atoi: string -> nat): nat
    requires Wanted(r)
  {
    atoi(AfterPrefix(Buffered(r.name)))
  }

  /** Some relocation wants an entry for function `f`. */
  ghost predicate Needs(relocs: seq<Reloc>, atoi: string -> nat, f: nat) {
    exists i | 0 <= i < |relocs| :: Wanted(relocs[i]) && WantedIndex(relocs[i], atoi) == f
  }

  ghost predicate InRange(relocs: seq<Reloc>, atoi: string -> nat, count: nat) {
    forall i | 0 <= i < |relocs| :: Wanted(relocs[i]) ==> WantedIndex(relocs[i], atoi) < count
  }

  /** The list holds each needed function once, and nothing else. */
  ghost predicate Collected(items: seq<nat>, relocs: seq<Reloc>, atoi: string -> nat) {
    && Distinct(items)
    && (forall f :: f in items <==> Needs(relocs, atoi, f))
  }

  lemma NeedsNext(relocs: seq<Reloc>, i: nat, atoi: string -> nat, f: nat)
    requires i < |relocs|
    ensures Needs(relocs[..i + 1], atoi, f)
            <==> Needs(relocs[..i], atoi, f) || (Wanted(relocs[i]) && WantedIndex(relocs[i], atoi) == f)
  {
    var (now, next) := (relocs[..i], relocs[..i + 1]);
    assert next[i] == relocs[i];
    assert forall k | 0 <= k < i :: next[k] == now[k];
  }

  /** One more relocation seen. */
  lemma CollectedNext(items: seq<nat>, relocs: seq<Reloc>, i: nat, atoi: string -> nat, items': seq<nat>)
    requires i < |relocs| && Collected(items, relocs[..i], atoi)
    requires items' == if Wanted(relocs[i]) && WantedIndex(relocs[i], atoi) !in items
                       then items + [WantedIndex(relocs[i], atoi)] else items
    ensures Collected(items', relocs[..i + 1], atoi)
  {
    forall f ensures f in items' <==> Needs(relocs[..i + 1], atoi, f) {
      NeedsNext(relocs, i, atoi, f);
    }
  }

  lemma InRangeNext(relocs: seq<Reloc>, i: nat, atoi: string -> nat, count: nat)
    requires i < |relocs|
    ensures InRange(relocs[..i + 1], atoi, count)
            <==> InRange(relocs[..i], atoi, count) && (Wanted(relocs[i]) ==> WantedIndex(relocs[i], atoi) < count)
    ensures InRange(relocs, atoi, count) ==> InRange(relocs[..i + 1], atoi, count)
  {
    var (now, next) := (relocs[..i], relocs[..i + 1]);
    assert next[i] == relocs[i];
    assert forall k | 0 <= k < i :: next[k] == now[k];
  }

  /** The index of a function in the list, its length if the function is not there. */
  function ItemIndex(items: seq<nat>, f: nat): (i: nat)
    ensures i <= |items| && (i < |items| <==> f in items)
  {
    if items == [] || items[0] == f then 0 else 1 + ItemIndex(items[1..], f)
  }

  lemma {:induction false} ItemIndexIs(items: seq<nat>, f: nat, i: nat)
    requires i <= |items| && f !in items[..i] && (i < |items| ==> items[i] == f)
    ensures ItemIndex(items, f) == i
    decreases |items|
  {
    if i > 0 {
      assert items[0] == items[..i][0] && items[1..][..i - 1] == items[..i][1..];
      ItemIndexIs(items[1..], f, i - 1);
    }
  }

  /** The loader's view of a module. */
  class AotModule {
    const funcPtrs: seq<nat>
    var gotItemList: seq<nat>
    var gotFuncPtrs: seq<nat>

    constructor (funcPtrs: seq<nat>)
      ensures this.funcPtrs == funcPtrs && gotItemList == [] && gotFuncPtrs == []
    {
      this.funcPtrs := funcPtrs;
      gotItemList, gotFuncPtrs := [], [];
    }

    /** Walking the list for a function: the index of its item, or the length of the list. */
    method FindItem(funcIdx: nat) returns (idx: nat)
      ensures idx <= |gotItemList|
      ensures idx < |gotItemList| ==> gotItemList[idx] == funcIdx
      ensures idx == |gotItemList| <==> funcIdx !in gotItemList
      ensures idx == ItemIndex(gotItemList, funcIdx)
    {
      idx := 0;
      while idx < |gotItemList|
        invariant idx <= |gotItemList|
        invariant funcIdx !in gotItemList[..idx]
      {
        if gotItemList[idx] == funcIdx {
          ItemIndexIs(gotItemList, funcIdx, idx);
          return;
        }
        idx := idx + 1;
      }
      ItemIndexIs(gotItemList, funcIdx, idx);
    }

    /** One relocation of the collecting pass. */
    method CollectOne(r: Reloc, atoi: string -> nat) returns (ok: bool)
      modifies this`gotItemList
      ensures ok <==> (Wanted(r) ==> WantedIndex(r, atoi) < |funcPtrs|)
      ensures gotItemList == if ok && Wanted(r) && WantedIndex(r, atoi) !in old(gotItemList)
                             then old(gotItemList) + [WantedIndex(r, atoi)] else old(gotItemList)
    {
      var symbolName := Buffered(r.name);
      if GotKind(r) && HasPrefix(symbolName) {
        var funcIdx := atoi(AfterPrefix(symbolName));
        if funcIdx >= |funcPtrs| {
          return false;
        }
        var idx := FindItem(funcIdx);
        if idx == |gotItemList| {
          gotItemList := gotItemList + [funcIdx];
        }
      }
      ok := true;
    }

    /** The collecting pass over the relocations of all groups. */
    method CollectItems(relocs: seq<Reloc>, atoi: string -> nat) returns (ok: bool)
      requires gotItemList == []
      modifies this`gotItemList
      ensures ok <==> InRange(relocs, atoi, |funcPtrs|)
      ensures ok ==> Collected(gotItemList, relocs, atoi)
    {
      ok := true;
      for i := 0 to |relocs|
        invariant InRange(relocs[..i], atoi, |funcPtrs|)
        invariant Collected(gotItemList, relocs[..i], atoi)
      {
        ghost var before := gotItemList;
        InRangeNext(relocs, i, atoi, |funcPtrs|);
        ok := CollectOne(relocs[i], atoi);
        if !ok {
          return;
        }
        CollectedNext(before, relocs, i, atoi, gotItemList);
      }
      assert relocs[..|relocs|] == relocs;
      ok := true;
    }

    /** Every item's slot holds the pointer of its function. */
    ghost predicate Filled()
      reads this
    {
      && |gotFuncPtrs| == |gotItemList|
      && forall i | 0 <= i < |gotItemList| :: gotItemList[i] < |funcPtrs| && gotFuncPtrs[i] == funcPtrs[gotItemList[i]]
    }

    method FillTable()
      requires forall i | 0 <= i < |gotItemList| :: gotItemList[i] < |funcPtrs|
      modifies this`gotFuncPtrs
      ensures Filled()
    {
      gotFuncPtrs := [];
      var idx := 0;
      while idx < |gotItemList|
        invariant idx <= |gotItemList| && |gotFuncPtrs| == idx
        invariant forall i | 0 <= i < idx :: gotItemList[i] < |funcPtrs| && gotFuncPtrs[i] == funcPtrs[gotItemList[i]]
      {
        gotFuncPtrs := gotFuncPtrs + [funcPtrs[gotItemList[idx]]];
        idx := idx + 1;
      }
    }

    /** Construction as a whole. */
    method BuildGot(relocs: seq<Reloc>, atoi: string -> nat) returns (ok: bool)
      requires gotItemList == [] && gotFuncPtrs == []
      modifies this`gotItemList, this`gotFuncPtrs
      ensures ok <==> InRange(relocs, atoi, |funcPtrs|)
      ensures ok ==> Collected(gotItemList, relocs, atoi) && Filled()
    {
      ok := CollectItems(relocs, atoi);
      if ok {
        forall i | 0 <= i < |gotItemList| ensures gotItemList[i] < |funcPtrs| {
          assert Needs(relocs, atoi, gotItemList[i]);
        }
        FillTable();
      }
    }

    /**
     The function branch of `do_text_relocation`: None is the error return. After
     construction a GOT relocation to function N gets a slot that holds
     `funcPtrs[N]` if and only if the collecting pass wanted N; otherwise the
     index is one past the table.
     */
    method ResolveFunction(r: Reloc, relocs: seq<Reloc>, atoi: string -> nat) returns (a: Option<Address>)
      requires HasPrefix(r.name) && Collected(gotItemList, relocs, atoi) && Filled()
      ensures var rest := AfterPrefix(r.name);
              a.None? <==> rest == "" || atoi(rest) >= |funcPtrs|
      ensures a.Some? && !GotKind(r) ==> a.value == Direct(funcPtrs[atoi(AfterPrefix(r.name))])
      ensures a.Some? && GotKind(r) ==>
                var n := atoi(AfterPrefix(r.name));
                && a.value == Slot(ItemIndex(gotItemList, n))
                && (Needs(relocs, atoi, n) ==>
                      a.value.index < |gotFuncPtrs| && gotFuncPtrs[a.value.index] == funcPtrs[n])
                && (!Needs(relocs, atoi, n) ==> a.value.index == |gotFuncPtrs|)
    {
      var p := AfterPrefix(r.name);
      if p == "" || atoi(p) >= |funcPtrs| {
        return None;
      }
      var funcIndex := atoi(p);
      if GotKind(r) {
        var idx := FindItem(funcIndex);
        a := Some(Slot(idx));
      } else {
        a := Some(Direct(funcPtrs[funcIndex]));
      }
    }
  }

  /** A GOT relocation (kind 9, 41 or 42) to function `f`: its name is the prefix and what `atoi` reads as `f`. */
  predicate NamesFunction(r: Reloc, atoi: string -> nat, f: nat) {
    r.kind in {9, 41, 42} && "aot_func#" <= r.name && atoi(r.name[9..]) == f
  }

  /** Some GOT relocation to `f` has a name that fits the 128-byte buffer with its terminating zero. */
  ghost predicate NamedShortly(relocs: seq<Reloc>, atoi: string -> nat, f: nat) {
    exists j | 0 <= j < |relocs| :: NamesFunction(relocs[j], atoi, f) && |relocs[j].name| < 128
  }

  /** A function gets an entry exactly when some name that the pass can see names it. */
  lemma NeededIffNamedShortly(relocs: seq<Reloc>, atoi: string -> nat, f: nat)
    ensures Needs(relocs, atoi, f) <==> NamedShortly(relocs, atoi, f)
  {
    forall i | 0 <= i < |relocs|
      ensures (Wanted(relocs[i]) && WantedIndex(relocs[i], atoi) == f)
              <==> NamesFunction(relocs[i], atoi, f) && |relocs[i].name| < 128
    {
      assert !HasPrefix("");
    }
  }

  /** Every GOT relocation of the file to a function finds an entry for that function. */
  ghost predicate AllResolved(relocs: seq<Reloc>, atoi: string -> nat) {
    forall k | 0 <= k < |relocs| && GotKind(relocs[k]) && HasPrefix(relocs[k].name) ::
      Needs(relocs, atoi, atoi(AfterPrefix(relocs[k].name)))
  }

  /**
   For every file: all GOT relocations get their own function's slot if and only
   if each one with an overlong name has another, with a name that fits, to the
   same function.
   */
  lemma ResolvedIffNamesFit(relocs: seq<Reloc>, atoi: string -> nat)
    ensures AllResolved(relocs, atoi)
            <==> forall k | 0 <= k < |relocs| && GotKind(relocs[k]) && HasPrefix(relocs[k].name)
                            && !FitsBuffer(relocs[k].name) ::
                   NamedShortly(relocs, atoi, atoi(AfterPrefix(relocs[k].name)))
  {
    forall k | 0 <= k < |relocs| && GotKind(relocs[k]) && HasPrefix(relocs[k].name)
      ensures Needs(relocs, atoi, atoi(AfterPrefix(relocs[k].name)))
              <==> FitsBuffer(relocs[k].name) || NamedShortly(relocs, atoi, atoi(AfterPrefix(relocs[k].name)))
    {
      NeededIffNamedShortly(relocs, atoi, atoi(AfterPrefix(relocs[k].name)));
    }
  }

  lemma SomeItem(items: seq<nat>)
    ensures items != [] ==> exists n :: n in items
  {
    if items != [] {
      assert items[0] in items;
    }
  }

  /**
   A concrete file with an overlong name: the collecting pass misses it, the table
   stays empty, and the lookup of its function, whichever that is, gives index 0,
   one past the end.
   */
  lemma {:induction false} LongNameIsMissed(zeros: string, atoi: string -> nat, items: seq<nat>, f: nat)
    requires |zeros| == 119
    requires Collected(items, [Reloc(R_X86_64_GOTPCREL, AOT_FUNC_PREFIX + zeros)], atoi)
    ensures var r := Reloc(R_X86_64_GOTPCREL, AOT_FUNC_PREFIX + zeros);
            HasPrefix(r.name) && !FitsBuffer(r.name) && GotKind(r)
    ensures items == [] && ItemIndex(items, f) == 0 == |items|
  {
    var r := Reloc(R_X86_64_GOTPCREL, AOT_FUNC_PREFIX + zeros);
    assert forall n: nat :: !Needs([r], atoi, n);
    SomeItem(items);
  }
}
