/**
 Linear memory of a module instance: page accounting, the app heap inside it,
 the bound-check limits read by compiled code, and growth
 (`wasm_enlarge_memory_internal`, `wasm_runtime_set_mem_bound_check_bytes`).
 */
module LinearMemory {
  import opened Machine

  const MAX_LINEAR_MEM64_MEMORY_SIZE: nat := 0xFFFF_FFFF * 64 * 1024

  function MaxLinearMemorySize(is64: bool): nat {
    if is64 then MAX_LINEAR_MEM64_MEMORY_SIZE else MAX_LINEAR_MEMORY_SIZE
  }

  /** The widths, in bytes, of the accesses that compiled code checks. */
  const ACCESS_WIDTHS: set<nat> := {1, 2, 4, 8, 16}

  /** `mem_bound_check_1byte` to `mem_bound_check_16bytes`. */
  datatype Limits = Limits(byte1: nat, bytes2: nat, bytes4: nat, bytes8: nat, bytes16: nat) {
    function For(n: nat): nat
      requires n in ACCESS_WIDTHS
    {
      if n == 1 then byte1 else if n == 2 then bytes2 else if n == 4 then bytes4
      else if n == 8 then bytes8 else bytes16
    }
  }

  /** The fields of a memory instance; addresses and sizes are plain numbers. */
  datatype Mem = Mem(is64: bool, pageBytes: nat, curPages: nat, maxPages: nat,
                     size: nat, base: nat, end: nat, heapData: nat, heapEnd: nat,
                     limits: Limits)

  /** What the operating system and the heap allocator answer during one growth. */
  datatype GrowEnv = GrowEnv(fullSizeMapped: bool, protectOk: bool, heapCorrupted: bool,
                             remapped: Option<nat>, migrateOk: bool)

  function BoundCheckLimits(size: nat): (l: Limits) {
    Limits(Sub64(size, 1), Sub64(size, 2), Sub64(size, 4), Sub64(size, 8), Sub64(size, 16))
  }

  ghost predicate Valid(m: Mem) {
    && 0 < m.pageBytes < UINT32_TOP
    && m.curPages <= m.maxPages < UINT32_TOP
    && m.pageBytes * m.maxPages <= MaxLinearMemorySize(m.is64)
    && m.size == m.pageBytes * m.curPages
    && m.end == m.base + m.size < UINT64_TOP
    && m.base <= m.heapData <= m.heapEnd <= m.end
    && m.heapEnd - m.heapData < UINT32_TOP
    && (0 < m.size ==> m.limits == BoundCheckLimits(m.size))
  }

  /** An n-byte access at `addr` passes the compiled bound check. */
  predicate PassesBoundCheck(m: Mem, addr: nat, n: nat)
    requires n in ACCESS_WIDTHS
  {
    addr <= m.limits.For(n)
  }

  /** The address the operating system hands back for a moved memory is usable. */
  predicate EnvOk(e: GrowEnv, newSize: nat) {
    e.remapped.Some? ==> e.remapped.value + newSize < UINT64_TOP
  }

  function TotalPages(m: Mem, inc: nat): nat {
    Add32(inc, m.curPages)
  }

  /** The checks that turn a request down before anything has changed. */
  predicate Refused(m: Mem, inc: nat, floor: Option<nat>, e: GrowEnv) {
    || TotalPages(m, inc) < m.curPages
    || TotalPages(m, inc) > m.maxPages
    || (floor.Some? && m.pageBytes * TotalPages(m, inc) > floor.value)
    || (if e.fullSizeMapped then !e.protectOk
        else (m.heapData < m.heapEnd && e.heapCorrupted) || e.remapped.None?)
  }

  /** The memory moved to `base`, the app heap with it. */
  function MovedTo(m: Mem, base: nat): Mem
    requires m.base <= m.heapData <= m.heapEnd
  {
    m.(base := base, heapData := base + (m.heapData - m.base),
       heapEnd := base + (m.heapData - m.base) + (m.heapEnd - m.heapData))
  }

  function Resized(m: Mem, pages: nat): Mem {
    var size := m.pageBytes * pages;
    m.(curPages := pages, size := size, end := m.base + size, limits := BoundCheckLimits(size))
  }

  /**
   One growth. `floor` is the lowest app address of the attached shared-heap
   chain, if there is one. Returns the new fields and the C result.
   */
  function Grow(m: Mem, inc: nat, floor: Option<nat>, e: GrowEnv): (r: (Mem, bool))
    requires m.base <= m.heapData <= m.heapEnd
  {
    if inc == 0 then (m, true)
    else if Refused(m, inc, floor, e) then (m, false)
    else if e.fullSizeMapped then (Resized(m, TotalPages(m, inc)), true)
    else (Resized(MovedTo(m, e.remapped.value), TotalPages(m, inc)),
          m.heapData == m.heapEnd || e.migrateOk)
  }

  lemma PagesMonotone(pageBytes: nat, a: nat, b: nat)
    requires a <= b
    ensures pageBytes * a <= pageBytes * b
  {
    calc { pageBytes * b; pageBytes * a + pageBytes * (b - a); }
  }

  /**
   Every growth keeps the memory well formed, the size never shrinks, the app
   heap keeps its offset and size, and a memory below the shared heaps stays there.
   It holds for every answer of the environment, so also when the heap cannot be
   migrated and the call reports failure after the memory has moved. The page
   count changes exactly when the request was carried out.
   */
  lemma GrowKeepsValid(m: Mem, inc: nat, floor: Option<nat>, e: GrowEnv)
    requires Valid(m) && inc < UINT32_TOP
    requires EnvOk(e, m.pageBytes * m.maxPages)
    requires e.fullSizeMapped ==> m.base + m.pageBytes * m.maxPages < UINT64_TOP
    ensures var n := Grow(m, inc, floor, e).0;
            && Valid(n)
            && m.size <= n.size <= MaxLinearMemorySize(n.is64)
            && n.heapData - n.base == m.heapData - m.base
            && n.heapEnd - n.heapData == m.heapEnd - m.heapData
            && (n.is64, n.pageBytes, n.maxPages) == (m.is64, m.pageBytes, m.maxPages)
            && (floor.Some? && m.size <= floor.value ==> n.size <= floor.value)
            && (n == m || n.curPages == m.curPages + inc)
    ensures Grow(m, inc, floor, e).1 ==> Grow(m, inc, floor, e).0.curPages == m.curPages + inc
  {
    var total := TotalPages(m, inc);
    PagesMonotone(m.pageBytes, m.curPages, m.maxPages);
    if inc != 0 && m.curPages <= total <= m.maxPages {
      assert total == m.curPages + inc;
      PagesMonotone(m.pageBytes, m.curPages, total);
      PagesMonotone(m.pageBytes, total, m.maxPages);
    }
  }

  /** A request of `inc` more pages that has room and is granted by the system. */
  predicate Granted(m: Mem, inc: nat, floor: Option<nat>, e: GrowEnv) {
    && m.curPages + inc <= m.maxPages
    && (floor.Some? ==> m.pageBytes * (m.curPages + inc) <= floor.value)
    && (if e.fullSizeMapped then e.protectOk else e.remapped.Some? && (e.heapCorrupted ==> m.heapData == m.heapEnd))
  }

  /**
   A request for more pages is carried out if and only if it is granted, and
   otherwise nothing changes. The data then lies where the system moved it. The
   answer is true if and only if it was carried out and a heap that had to move
   was migrated. A request for no pages always succeeds and does nothing.
   */
  lemma {:induction false} GrowIff(m: Mem, inc: nat, floor: Option<nat>, e: GrowEnv)
    requires Valid(m) && inc < UINT32_TOP
    ensures var (n, ok) := Grow(m, inc, floor, e);
            && (n.curPages == m.curPages + inc <==> inc == 0 || Granted(m, inc, floor, e))
            && (inc == 0 || !Granted(m, inc, floor, e) ==> n == m)
            && (inc > 0 && Granted(m, inc, floor, e) ==>
                  && n.base == (if e.fullSizeMapped then m.base else e.remapped.value)
                  && n.size == m.pageBytes * (m.curPages + inc) && n.end == n.base + n.size)
            && (ok <==> inc == 0 || (Granted(m, inc, floor, e)
                                     && (e.fullSizeMapped || m.heapData == m.heapEnd || e.migrateOk)))
  {}

  datatype GrowStep = GrowStep(inc: nat, floor: Option<nat>, env: GrowEnv)

  /** The obligations of one growth request in a run. */
  ghost predicate StepOk(m: Mem, s: GrowStep) {
    && s.inc < UINT32_TOP
    && EnvOk(s.env, m.pageBytes * m.maxPages)
    && (s.env.fullSizeMapped ==> m.base + m.pageBytes * m.maxPages < UINT64_TOP)
  }

  ghost predicate RunOk(m: Mem, steps: seq<GrowStep>)
    requires Valid(m)
    decreases |steps|
  {
    if steps == [] then true
    else if !StepOk(m, steps[0]) then false
    else
      GrowKeepsValid(m, steps[0].inc, steps[0].floor, steps[0].env);
      RunOk(Grow(m, steps[0].inc, steps[0].floor, steps[0].env).0, steps[1..])
  }

  ghost function RunGrow(m: Mem, steps: seq<GrowStep>): (n: Mem)
    requires Valid(m) && RunOk(m, steps)
    decreases |steps|
  {
    if steps == [] then m
    else
      GrowKeepsValid(m, steps[0].inc, steps[0].floor, steps[0].env);
      RunGrow(Grow(m, steps[0].inc, steps[0].floor, steps[0].env).0, steps[1..])
  }

  /** Any number of growths keeps all of it. */
  lemma {:induction false} RunGrowKeepsValid(m: Mem, steps: seq<GrowStep>)
    requires Valid(m) && RunOk(m, steps)
    ensures var n := RunGrow(m, steps);
            && Valid(n)
            && m.size <= n.size
            && m.curPages <= n.curPages <= n.maxPages == m.maxPages
            && n.heapData - n.base == m.heapData - m.base
            && n.heapEnd - n.heapData == m.heapEnd - m.heapData
    decreases |steps|
  {
    if steps != [] {
      GrowKeepsValid(m, steps[0].inc, steps[0].floor, steps[0].env);
      RunGrowKeepsValid(Grow(m, steps[0].inc, steps[0].floor, steps[0].env).0, steps[1..]);
    }
  }

  /**
   The compiled check `addr <= limit` is exact for n-byte accesses if and only
   if the memory holds at least n bytes: below that the unsigned subtraction
   wraps and lets every small address through. An empty memory is not covered:
   there the compiled code tests the page count before it looks at the limit.
   */
  lemma BoundCheckExactIff(m: Mem, n: nat)
    requires Valid(m) && 0 < m.size && n in ACCESS_WIDTHS
    ensures (forall addr: nat | addr < UINT64_TOP :: PassesBoundCheck(m, addr, n) <==> addr + n <= m.size)
            <==> n <= m.size
  {
    if m.size < n {
      assert PassesBoundCheck(m, 0, n);
    }
  }

  /** A memory of one 8-byte page: the check lets a 16-byte access at 0 through. */
  lemma BoundCheckTooShort(m: Mem)
    requires m == Mem(false, 8, 1, 1, 8, 0x1000, 0x1008, 0x1008, 0x1008, BoundCheckLimits(8))
    ensures Valid(m) && PassesBoundCheck(m, 0, 16) && m.size < 16
  {}

  /** A memory instance, updated in place. */
  class MemoryInstance {
    var is64: bool
    var pageBytes: nat
    var curPages: nat
    var maxPages: nat
    var size: nat
    var base: nat
    var end: nat
    var heapData: nat
    var heapEnd: nat
    var limits: Limits

    ghost function View(): (m: Mem)
      reads this
    {
      Mem(is64, pageBytes, curPages, maxPages, size, base, end, heapData, heapEnd, limits)
    }

    constructor (m: Mem)
      ensures View() == m
    {
      is64, pageBytes, curPages, maxPages, size := m.is64, m.pageBytes, m.curPages, m.maxPages, m.size;
      base, end, heapData, heapEnd, limits := m.base, m.end, m.heapData, m.heapEnd, m.limits;
    }

    method SetBoundCheckBytes(memoryDataSize: nat)
      modifies `limits
      ensures View() == old(View()).(limits := BoundCheckLimits(memoryDataSize))
    {
      limits := Limits(Sub64(memoryDataSize, 1), Sub64(memoryDataSize, 2), Sub64(memoryDataSize, 4),
                       Sub64(memoryDataSize, 8), Sub64(memoryDataSize, 16));
    }

    /** `wasm_enlarge_memory_internal`. */
    method Enlarge(inc: nat, floor: Option<nat>, e: GrowEnv) returns (ret: bool)
      requires inc < UINT32_TOP && base <= heapData <= heapEnd
      modifies this
      ensures (View(), ret) == Grow(old(View()), inc, floor, e)
      ensures old(Valid(View())) ==>
                (curPages == old(curPages) + inc <==> inc == 0 || Granted(old(View()), inc, floor, e))
    {
      if Valid(View()) {
        GrowIff(View(), inc, floor, e);
      }
      hide Resized, BoundCheckLimits;
      var heapSize := heapEnd - heapData;
      var totalPages := Add32(inc, curPages);
      var totalSizeNew := pageBytes * totalPages;
      if inc <= 0 {
        return true;
      }
      if totalPages < curPages {
        return false;
      }
      if totalPages > maxPages {
        return false;
      }
      if floor.Some? && totalSizeNew > floor.value {
        return false;
      }
      ret := true;
      if e.fullSizeMapped {
        if !e.protectOk {
          return false;
        }
      } else {
        if heapSize > 0 && e.heapCorrupted {
          return false;
        }
        if e.remapped.None? {
          return false;
        }
        ret := Move(e.remapped.value, e.migrateOk);
      }
      Resize(totalPages, totalSizeNew);
    }

    /** The last steps of a growth that is carried out. */
    method Resize(totalPages: nat, totalSizeNew: nat)
      requires totalSizeNew == pageBytes * totalPages
      modifies `curPages, `size, `end, `limits
      ensures View() == Resized(old(View()), totalPages)
    {
      curPages := totalPages;
      size := totalSizeNew;
      end := base + totalSizeNew;
      SetBoundCheckBytes(totalSizeNew);
    }

    /** The app heap is migrated, and the memory data moved even if that fails. */
    method Move(moved: nat, migrateOk: bool) returns (ret: bool)
      requires base <= heapData <= heapEnd
      modifies `base, `heapData, `heapEnd
      ensures View() == MovedTo(old(View()), moved)
      ensures ret <==> old(heapData) == old(heapEnd) || migrateOk
    {
      ret := true;
      var heapSize := heapEnd - heapData;
      if heapSize > 0 {
        if !migrateOk {
          ret := false;
        }
      }
      heapData := moved + (heapData - base);
      heapEnd := heapData + heapSize;
      base := moved;
    }
  }
}
