/**
 Where `memory_instantiate` puts the app heap of a 32-bit memory with pages of any
 size from 1 KB on. The page arithmetic is done in uint32, as in the source: one
 subtraction wraps on purpose, and with pages near 4 GB a sum wraps as well.
 */
module HeapPlacement {
  import opened Machine
  import opened Arithmetic
  import LinearMemory

  const DEFAULT_MAX_PAGES: nat := 65536

  /** The memory of a module, and its `__heap_base` global if it has one. */
  datatype Memory = Memory(pageBytes: nat, initPages: nat, maxPages: nat, heapBase: Option<nat>, exportsMalloc: bool)

  /** The instantiated memory; `heapBase` is the value written to the global, if it was adjusted. */
  datatype Placed = Placed(pageBytes: nat, initPages: nat, maxPages: nat, heapOffset: nat, heapSize: nat,
                           heapBase: Option<nat>)

  function Size(pageBytes: nat, pages: nat): nat {
    pageBytes * pages
  }

  // ---------------------------------------------------------------------------
  // Pages
  // ---------------------------------------------------------------------------

  function CeilDiv(x: nat, d: nat): nat
    requires 0 < d
  {
    (x + d - 1) / d
  }

  /** `c` is the least number of pages that hold `x` bytes. */
  predicate LeastPages(x: int, d: nat, c: nat) {
    x <= Size(d, c) && (c == 0 || Size(d, c - 1) < x)
  }

  lemma DivBounds(y: nat, d: nat)
    requires 0 < d
    ensures Size(d, y / d) <= y < Size(d, y / d) + d
  {}

  lemma SizeStep(d: nat, a: nat, b: nat)
    ensures Size(d, a + b) == Size(d, a) + Size(d, b)
    ensures a <= b ==> Size(d, a) <= Size(d, b)
  {
    if a <= b {
      assert d * b == d * a + d * (b - a);
    }
  }

  /** The rounding-up division of the source gives the least number of pages. */
  lemma CeilIsLeast(x: nat, d: nat)
    requires 0 < d
    ensures LeastPages(x, d, CeilDiv(x, d)) && Size(d, CeilDiv(x, d)) < x + d
  {
    var c := CeilDiv(x, d);
    DivBounds(x + d - 1, d);
    if c > 0 {
      SizeStep(d, c - 1, 1);
    }
  }

  /** `bytes_to_page_end` after the zero case has been mapped to a full page. */
  function BytesToPageEnd(x: nat, pageBytes: nat): (r: nat)
    requires 0 < pageBytes
    ensures r < pageBytes
  {
    var last := x % pageBytes;
    pageBytes - (if last == 0 then pageBytes else last)
  }

  /** It is the distance to the next page boundary. */
  lemma PageEnd(x: nat, d: nat)
    requires 0 < d
    ensures x + BytesToPageEnd(x, d) == Size(d, CeilDiv(x, d))
  {
    var q, last := x / d, x % d;
    assert x == d * q + last;
    var pages := if last == 0 then q else q + 1;
    assert x + BytesToPageEnd(x, d) == d * pages;
    CeilIsLeast(x, d);
    SameMultiple(d, pages, CeilDiv(x, d), x);
  }

  lemma SameMultiple(d: nat, a: nat, b: nat, x: nat)
    requires 0 < d
    requires x <= Size(d, a) < x + d && x <= Size(d, b) < x + d
    ensures a == b
  {
    if a < b {
      SizeStep(d, a, b - a);
      SizeStep(d, 1, b - a);
      assert false;
    } else if b < a {
      SizeStep(d, b, a - b);
      SizeStep(d, 1, a - b);
      assert false;
    }
  }

  /** Pages for the part of the heap that does not fit before the page end. */
  function MissingPages(heap: nat, toEnd: nat, pageBytes: nat): nat
    requires 0 < pageBytes
  {
    if heap <= toEnd then 0 else CeilDiv(heap - toEnd, pageBytes)
  }

  lemma MissingIsLeast(heap: nat, toEnd: nat, pageBytes: nat)
    requires 0 < pageBytes
    ensures LeastPages(heap - toEnd, pageBytes, MissingPages(heap, toEnd, pageBytes))
  {
    if heap > toEnd {
      CeilIsLeast(heap - toEnd, pageBytes);
    }
  }

  /** The increment as the source computes it, in uint32. */
  function WrappedIncrement(heap: nat, toEnd: nat, pageBytes: nat): nat
    requires heap < UINT32_TOP && toEnd < pageBytes < UINT32_TOP
  {
    Sub32(Add32(Sub32(heap, toEnd), pageBytes), 1) / pageBytes
  }

  /**
   `heap - toEnd` wraps when the heap fits before the page end; the increment is
   still the right one, and the least that will do. It is wrong, and too small,
   exactly when the sum of heap and page passes 4 GB by more than what is left of
   the page.
   */
  lemma WrappedIncrementIff(heap: nat, toEnd: nat, pageBytes: nat)
    requires heap < UINT32_TOP && toEnd < pageBytes < UINT32_TOP
    ensures WrappedIncrement(heap, toEnd, pageBytes) == MissingPages(heap, toEnd, pageBytes)
            <==> heap + pageBytes - toEnd <= UINT32_TOP
    ensures heap + pageBytes - toEnd <= UINT32_TOP ==>
              LeastPages(heap - toEnd, pageBytes, WrappedIncrement(heap, toEnd, pageBytes))
  {
    var y := heap - toEnd + pageBytes - 1;
    if y < UINT32_TOP {
      assert Sub32(Add32(Sub32(heap, toEnd), pageBytes), 1) == y;
      if heap <= toEnd {
        SmallQuotient(y, pageBytes);
      }
    } else {
      assert Sub32(Add32(Sub32(heap, toEnd), pageBytes), 1) == y - UINT32_TOP;
      QuotientDrops(y, y - UINT32_TOP, pageBytes);
    }
    MissingIsLeast(heap, toEnd, pageBytes);
  }

  /** A heap of 1 GB behind a page of 3.5 GB: one page is missing, none is added. */
  lemma WrappedIncrementFails()
    ensures WrappedIncrement(0x4000_0000, 0, 0xE000_0000) == 0
    ensures MissingPages(0x4000_0000, 0, 0xE000_0000) == 1
  {}

  lemma QuotientDrops(x: nat, y: nat, d: nat)
    requires 0 < d && y + d <= x
    ensures y / d < x / d
  {
    DivBounds(x, d);
    DivBounds(y, d);
    if x / d <= y / d {
      SizeStep(d, x / d, y / d);
      assert false;
    }
  }

  lemma SmallQuotient(y: nat, d: nat)
    requires y < d
    ensures y / d == 0
  {}

  // ---------------------------------------------------------------------------
  // Page limits and heap size
  // ---------------------------------------------------------------------------

  function Distance(a: nat, b: nat): nat {
    if a <= b then b - a else a - b
  }

  /** `wasm_runtime_get_max_mem`: the limit within the module's own ones that is nearest to an override. */
  function GetMaxMem(override: nat, initPages: nat, maxPages: nat): (r: nat)
    ensures initPages <= maxPages ==> initPages <= r <= maxPages
    ensures override == 0 ==> r == maxPages
    ensures 0 < override ==>
              forall x: nat | initPages <= x <= maxPages :: Distance(r, override) <= Distance(x, override)
  {
    if override == 0 then maxPages
    else if override < initPages then initPages
    else if override > maxPages then maxPages
    else override
  }

  /** The heap size `aot_instantiate` passes on: a multiple of 8, capped; the last seven sizes wrap to 0. */
  function HeapSizeArgument(heap: nat): (r: nat)
    requires heap < UINT32_TOP
    ensures r <= APP_HEAP_SIZE_MAX && r % 8 == 0
    ensures heap <= APP_HEAP_SIZE_MAX ==> heap <= r < heap + 8
    ensures APP_HEAP_SIZE_MAX < heap < 0xFFFF_FFF9 ==> r == APP_HEAP_SIZE_MAX
    ensures 0xFFFF_FFF9 <= heap ==> r == 0
  {
    var aligned := Add32(heap, 7) / 8 * 8;
    if aligned > 0x4000_0000 then 0x4000_0000 else aligned
  }

  // ---------------------------------------------------------------------------
  // The four layouts
  // ---------------------------------------------------------------------------

  datatype Layout = Appended | NoHeap | Resized | BeforeHeapBase | NewPages

  /** A 32-bit memory. */
  predicate Admissible(m: Memory) {
    && KB <= m.pageBytes < UINT32_TOP && m.initPages <= m.maxPages <= DEFAULT_MAX_PAGES
    && (m.heapBase.Some? ==> m.heapBase.value < UINT32_TOP)
  }

  /** A module that exports malloc and free gets no app heap. */
  function HeapFor(m: Memory, heap: nat): nat {
    if heap > 0 && m.exportsMalloc then 0 else heap
  }

  function LayoutOf(m: Memory, maxPages: nat, heap: nat): Layout {
    if m.initPages == maxPages && m.initPages == 1 then Appended
    else if heap == 0 then NoHeap
    else if m.initPages == maxPages && m.initPages == 0 then Resized
    else if m.heapBase.Some? && m.heapBase.value < Size(m.pageBytes, m.initPages) then BeforeHeapBase
    else NewPages
  }

  /** One more page when `__heap_base` would end up within 1 KB of a page end. */
  function Gap(end: nat, pageBytes: nat): nat
    requires 0 < pageBytes
  {
    if BytesToPageEnd(end, pageBytes) < KB then 1 else 0
  }

  /** `__heap_base`, in the layout that looks at it. */
  function HeapBase(m: Memory): nat {
    if m.heapBase.Some? then m.heapBase.value else 0
  }

  /** Where the heap in front of `__heap_base` moves it. */
  function MovedBase(m: Memory, heap: nat): nat
    requires 0 < m.pageBytes
  {
    HeapBase(m) + heap + KB * Gap(HeapBase(m) + heap, m.pageBytes)
  }

  /** How many pages the heap needs in each layout. */
  function PagesNeeded(m: Memory, layout: Layout, heap: nat): nat
    requires 0 < m.pageBytes
  {
    match layout
    case Appended | NoHeap => 0
    case Resized => 1
    case BeforeHeapBase =>
      MissingPages(heap, BytesToPageEnd(HeapBase(m), m.pageBytes), m.pageBytes)
      + Gap(HeapBase(m) + heap, m.pageBytes)
    case NewPages => MissingPages(heap, 0, m.pageBytes)
  }

  /** How many pages the source adds. */
  function PagesAdded(m: Memory, layout: Layout, heap: nat): nat
    requires 0 < m.pageBytes < UINT32_TOP && heap < UINT32_TOP
  {
    match layout
    case Appended | NoHeap => 0
    case Resized => 1
    case BeforeHeapBase =>
      WrappedIncrement(heap, BytesToPageEnd(HeapBase(m), m.pageBytes), m.pageBytes)
      + Gap(HeapBase(m) + heap, m.pageBytes)
    case NewPages => WrappedIncrement(heap, 0, m.pageBytes)
  }

  /** The uint32 sum of heap and page does not pass 4 GB, or not by more than what is left of the page. */
  predicate IncrementFits(m: Memory, layout: Layout, heap: nat)
    requires 0 < m.pageBytes
  {
    && (layout.BeforeHeapBase? ==> heap + m.pageBytes - BytesToPageEnd(HeapBase(m), m.pageBytes) <= UINT32_TOP)
    && (layout.NewPages? ==> heap + m.pageBytes <= UINT32_TOP)
  }

  lemma AddedIff(m: Memory, layout: Layout, heap: nat)
    requires 0 < m.pageBytes < UINT32_TOP && heap < UINT32_TOP
    ensures PagesAdded(m, layout, heap) == PagesNeeded(m, layout, heap) <==> IncrementFits(m, layout, heap)
  {
    WrappedIncrementIff(heap, BytesToPageEnd(HeapBase(m), m.pageBytes), m.pageBytes);
    WrappedIncrementIff(heap, 0, m.pageBytes);
  }

  /** When is the app heap refused? */
  predicate Refused(m: Memory, layout: Layout, heap: nat)
    requires 0 < m.pageBytes < UINT32_TOP && heap < UINT32_TOP
  {
    || (heap > 0 && Size(m.pageBytes, m.initPages) == MAX_LINEAR_MEMORY_SIZE)
    || (layout.Appended? && heap > UINT32_MAX - m.pageBytes)
    || m.initPages + PagesAdded(m, layout, heap) > DEFAULT_MAX_PAGES
  }

  /** The heap in new pages: all of them but one KB. */
  function NewHeapSize(m: Memory, heap: nat): nat
    requires KB <= m.pageBytes < UINT32_TOP && heap < UINT32_TOP
  {
    var inc := PagesAdded(m, NewPages, heap);
    if inc == 0 then 0 else AtLeastOnePage(m.pageBytes, inc); Size(m.pageBytes, inc) - KB
  }

  lemma AtLeastOnePage(pageBytes: nat, pages: nat)
    requires 0 < pages
    ensures pageBytes <= Size(pageBytes, pages)
  {
    SizeStep(pageBytes, 1, pages);
  }

  /** The placement the source arrives at when it does not refuse. */
  function PlacedBy(m: Memory, maxPages: nat, layout: Layout, heap: nat): Placed
    requires KB <= m.pageBytes < UINT32_TOP && heap < UINT32_TOP
  {
    var inc, size := PagesAdded(m, layout, heap), Size(m.pageBytes, m.initPages);
    var initPages, limit := m.initPages + inc, Min(maxPages + inc, DEFAULT_MAX_PAGES);
    match layout
    case Appended => Placed(m.pageBytes + heap, 1, 1, m.pageBytes, heap, None)
    case NoHeap => Placed(m.pageBytes, m.initPages, maxPages, size, 0, None)
    case Resized => Placed(heap, 1, 1, 0, heap, None)
    case BeforeHeapBase =>
      Placed(m.pageBytes, initPages, limit, HeapBase(m), heap, Some(Low32(MovedBase(m, heap))))
    case NewPages => Placed(m.pageBytes, initPages, limit, size, NewHeapSize(m, heap), None)
  }

  // ---------------------------------------------------------------------------
  // What a placement promises, and when
  // ---------------------------------------------------------------------------

  /**
   The heap window is inside the initial memory and starts at the old
   `__heap_base` or the old end of memory, so on nothing of the module; an
   adjusted `__heap_base` is at or after the end of the window and still inside.
   */
  predicate Window(m: Memory, layout: Layout, heap: nat, p: Placed) {
    && p.heapOffset + p.heapSize <= Size(p.pageBytes, p.initPages)
    && p.heapOffset == (if layout.BeforeHeapBase? then HeapBase(m) else Size(m.pageBytes, m.initPages))
    && (if layout.NewPages?
        then heap <= p.heapSize + KB < heap + m.pageBytes
             && p.heapOffset + p.heapSize + KB == Size(p.pageBytes, p.initPages)
        else p.heapSize == heap)
    && (p.heapBase.Some? <==> layout.BeforeHeapBase?)
    && (p.heapBase.Some? ==>
          p.heapOffset + p.heapSize <= p.heapBase.value
          && p.heapBase.value + Min(KB, m.pageBytes - KB) <= Size(p.pageBytes, p.initPages))
    && Size(m.pageBytes, m.initPages) <= Size(p.pageBytes, p.initPages)
  }

  /** Besides, the page limits are in order and the memory fits the address space. */
  predicate Placement(m: Memory, maxPages: nat, layout: Layout, heap: nat, p: Placed)
    requires 0 < m.pageBytes
  {
    var inc := PagesNeeded(m, layout, heap);
    && Window(m, layout, heap, p)
    && 0 < p.pageBytes < UINT32_TOP
    && p.initPages == m.initPages + inc && p.maxPages == Min(maxPages + inc, DEFAULT_MAX_PAGES)
    && p.initPages <= p.maxPages
    && Size(p.pageBytes, p.maxPages) <= MAX_LINEAR_MEMORY_SIZE
  }

  /** The page limit, raised by `added`, fits 4 GB; a heap in a page of its own always does. */
  predicate PagesFit(m: Memory, maxPages: nat, layout: Layout, added: nat)
    requires 0 < m.pageBytes
  {
    || layout.Appended? || layout.Resized?
    || m.pageBytes <= 0x1_0000
    || maxPages + added <= MAX_LINEAR_MEMORY_SIZE / m.pageBytes
  }

  /** The inputs of a placement that is not refused. */
  predicate Accepted(m: Memory, maxPages: nat, layout: Layout, heap: nat) {
    && Admissible(m) && m.initPages <= maxPages <= DEFAULT_MAX_PAGES && heap <= APP_HEAP_SIZE_MAX
    && layout == LayoutOf(m, maxPages, heap) && !Refused(m, layout, heap)
  }

  lemma SizeLimit(pageBytes: nat, pages: nat)
    requires pageBytes <= 0x1_0000 && pages <= 0x1_0000
    ensures Size(pageBytes, pages) <= 0x1_0000_0000
  {
    SizeStep(pageBytes, pages, 0x1_0000);
  }

  /** How many pages 4 GB have room for. */
  lemma RoomIff(pageBytes: nat, pages: nat)
    requires 0 < pageBytes
    ensures Size(pageBytes, pages) <= MAX_LINEAR_MEMORY_SIZE <==> pages <= MAX_LINEAR_MEMORY_SIZE / pageBytes
  {
    var room := MAX_LINEAR_MEMORY_SIZE / pageBytes;
    DivBounds(MAX_LINEAR_MEMORY_SIZE, pageBytes);
    if pages <= room {
      SizeStep(pageBytes, pages, room);
    } else {
      SizeStep(pageBytes, room + 1, pages);
      SizeStep(pageBytes, room, 1);
    }
  }

  /** With pages above 64 KB there is room for fewer than 65536. */
  lemma LargePagesRoom(pageBytes: nat)
    requires 0x1_0000 < pageBytes
    ensures MAX_LINEAR_MEMORY_SIZE / pageBytes < DEFAULT_MAX_PAGES
  {
    RoomIff(pageBytes, DEFAULT_MAX_PAGES);
  }

  /** A limit clamped to 65536 pages fits 4 GB exactly when the pages are small or the limit itself fits. */
  lemma ClampedFitsIff(pageBytes: nat, limit: nat)
    requires 0 < pageBytes
    ensures Size(pageBytes, Min(limit, DEFAULT_MAX_PAGES)) <= MAX_LINEAR_MEMORY_SIZE
            <==> pageBytes <= 0x1_0000 || limit <= MAX_LINEAR_MEMORY_SIZE / pageBytes
  {
    var clamped: nat := Min(limit, DEFAULT_MAX_PAGES);
    if pageBytes <= 0x1_0000 {
      SizeLimit(pageBytes, clamped);
    } else {
      LargePagesRoom(pageBytes);
      RoomIff(pageBytes, clamped);
    }
  }

  /**
   The assertion on the maximal memory size holds if and only if the raised page
   limit fits 4 GB. Up to 64 KB per page it always does.
   */
  lemma AssertionIff(m: Memory, maxPages: nat, layout: Layout, heap: nat)
    requires Accepted(m, maxPages, layout, heap)
    ensures var p := PlacedBy(m, maxPages, layout, heap);
            Size(p.pageBytes, p.maxPages) <= MAX_LINEAR_MEMORY_SIZE
            <==> PagesFit(m, maxPages, layout, PagesAdded(m, layout, heap))
  {
    ClampedFitsIff(m.pageBytes, maxPages + PagesAdded(m, layout, heap));
  }

  /** Pages of 128 KB and no limit of its own: the assertion fails before any heap is placed. */
  lemma AssertionFails(m: Memory)
    requires m == Memory(0x2_0000, 1, 65536, None, false)
    ensures Accepted(m, 65536, NoHeap, 0)
    ensures var p := PlacedBy(m, 65536, NoHeap, 0); Size(p.pageBytes, p.maxPages) > MAX_LINEAR_MEMORY_SIZE
  {}

  /**
   The moved `__heap_base` survives its cast to uint32, and is then at or after
   the end of the heap, if and only if it lies below 4 GB.
   */
  lemma BaseSurvivesIff(m: Memory, maxPages: nat, heap: nat)
    requires Accepted(m, maxPages, BeforeHeapBase, heap)
    ensures var p := PlacedBy(m, maxPages, BeforeHeapBase, heap);
            && (p.heapBase == Some(MovedBase(m, heap)) <==> MovedBase(m, heap) < UINT32_TOP)
            && (p.heapOffset + p.heapSize <= p.heapBase.value <==> MovedBase(m, heap) < UINT32_TOP)
  {
    var moved := MovedBase(m, heap);
    Low32Exact(moved);
    if moved >= UINT32_TOP {
      UniqueMod(moved, UINT32_TOP, 1, moved - UINT32_TOP);
    }
  }

  /** Three pages of 2 GB, the base 256 MB below the end of the second: it moves past 4 GB and is stored as 1024. */
  lemma BaseWraps(m: Memory, heap: nat)
    requires m == Memory(0x8000_0000, 3, 3, Some(0xF000_0000), false) && heap == 0x1000_0000
    ensures Accepted(m, 3, BeforeHeapBase, heap)
    ensures PlacedBy(m, 3, BeforeHeapBase, heap).heapBase == Some(1024)
  {}

  /** Added too few, the source adds none at all beyond the gap page. */
  lemma NothingAdded(heap: nat, toEnd: nat, pageBytes: nat)
    requires heap <= APP_HEAP_SIZE_MAX && toEnd < pageBytes < UINT32_TOP && heap + pageBytes - toEnd > UINT32_TOP
    ensures WrappedIncrement(heap, toEnd, pageBytes) == 0
  {
    var y := heap - toEnd + pageBytes - 1 - UINT32_TOP;
    assert Sub32(Add32(Sub32(heap, toEnd), pageBytes), 1) == y;
    SmallQuotient(y, pageBytes);
  }

  /**
   The heap window lies inside the initial memory in every layout but one: before
   `__heap_base` it does if and only if the increment fits, or the window fits
   without it, or a page is added for the gap.
   */
  lemma WindowInsideIff(m: Memory, maxPages: nat, layout: Layout, heap: nat)
    requires Accepted(m, maxPages, layout, heap)
    ensures var p := PlacedBy(m, maxPages, layout, heap);
            p.heapOffset + p.heapSize <= Size(p.pageBytes, p.initPages)
            <==> (layout.BeforeHeapBase? ==>
                    || IncrementFits(m, layout, heap)
                    || HeapBase(m) + heap <= Size(m.pageBytes, m.initPages)
                    || Gap(HeapBase(m) + heap, m.pageBytes) == 1)
  {
    var inc := PagesAdded(m, layout, heap);
    SizeStep(m.pageBytes, m.initPages, inc);
    if layout.BeforeHeapBase? {
      var toEnd := BytesToPageEnd(HeapBase(m), m.pageBytes);
      if IncrementFits(m, layout, heap) {
        WrappedIncrementIff(heap, toEnd, m.pageBytes);
        HeapEndInside(m.pageBytes, m.initPages, HeapBase(m), heap, WrappedIncrement(heap, toEnd, m.pageBytes));
        SizeStep(m.pageBytes, m.initPages + WrappedIncrement(heap, toEnd, m.pageBytes), m.initPages + inc);
      } else {
        NothingAdded(heap, toEnd, m.pageBytes);
        SizeStep(m.pageBytes, m.initPages, 1);
      }
    }
  }

  /** The heap ends before the grown memory does, and so does the page it ends in. */
  lemma HeapEndInside(pageBytes: nat, initPages: nat, heapBase: nat, heap: nat, inc: nat)
    requires 0 < pageBytes && heapBase < Size(pageBytes, initPages)
    requires LeastPages(heap - BytesToPageEnd(heapBase, pageBytes), pageBytes, inc)
    ensures heapBase + heap + BytesToPageEnd(heapBase + heap, pageBytes) <= Size(pageBytes, initPages + inc)
  {
    var d, end := pageBytes, heapBase + heap;
    PageEnd(heapBase, d);
    LeastIsLeast(heapBase, d, initPages);
    SizeStep(d, CeilDiv(heapBase, d), initPages);
    SizeStep(d, initPages, inc);
    PageEnd(end, d);
    LeastIsLeast(end, d, initPages + inc);
    SizeStep(d, CeilDiv(end, d), initPages + inc);
  }

  lemma LeastIsLeast(x: nat, d: nat, pages: nat)
    requires 0 < d && x <= Size(d, pages)
    ensures CeilDiv(x, d) <= pages
  {
    CeilIsLeast(x, d);
    var c := CeilDiv(x, d);
    if c > pages {
      SizeStep(d, pages, c - 1);
      assert false;
    }
  }

  /** With the right increment the moved base, too, is inside, with room behind it. */
  lemma BaseInside(m: Memory, heap: nat, inc: nat)
    requires KB <= m.pageBytes < UINT32_TOP && heap < UINT32_TOP && IncrementFits(m, BeforeHeapBase, heap)
    requires HeapBase(m) < Size(m.pageBytes, m.initPages) && inc == PagesAdded(m, BeforeHeapBase, heap)
    ensures MovedBase(m, heap) + Min(KB, m.pageBytes - KB) <= Size(m.pageBytes, m.initPages + inc)
  {
    var toEnd := BytesToPageEnd(HeapBase(m), m.pageBytes);
    var least := WrappedIncrement(heap, toEnd, m.pageBytes);
    WrappedIncrementIff(heap, toEnd, m.pageBytes);
    HeapEndInside(m.pageBytes, m.initPages, HeapBase(m), heap, least);
    SizeStep(m.pageBytes, m.initPages + least, 1);
  }

  /** The heap in new pages has the requested size up to one KB, when the increment fits. */
  lemma NewHeapFits(m: Memory, heap: nat, inc: nat)
    requires KB <= m.pageBytes < UINT32_TOP && 0 < heap && heap + m.pageBytes <= UINT32_TOP
    requires inc == PagesAdded(m, NewPages, heap)
    ensures heap <= NewHeapSize(m, heap) + KB < heap + m.pageBytes
    ensures Size(m.pageBytes, m.initPages) + NewHeapSize(m, heap) + KB == Size(m.pageBytes, m.initPages + inc)
  {
    WrappedIncrementIff(heap, 0, m.pageBytes);
    CeilIsLeast(heap, m.pageBytes);
    SizeStep(m.pageBytes, m.initPages, inc);
  }

  /** One page of 3.5 GB at most, none at first: a heap of 1 GB is dropped without an error. */
  lemma HeapIsDropped(m: Memory, heap: nat)
    requires m == Memory(0xE000_0000, 0, 1, None, false) && heap == 0x4000_0000
    ensures Accepted(m, 1, NewPages, heap)
    ensures PlacedBy(m, 1, NewPages, heap) == Placed(0xE000_0000, 0, 1, 0, 0, None)
    ensures PagesFit(m, 1, NewPages, PagesAdded(m, NewPages, heap))
  {
    WrappedIncrementFails();
  }

  /** Before `__heap_base` a wrong increment never goes unnoticed: the assertion fails, too. */
  lemma WrongIncrementIsCaught(m: Memory, maxPages: nat, heap: nat)
    requires Accepted(m, maxPages, BeforeHeapBase, heap) && !IncrementFits(m, BeforeHeapBase, heap)
    ensures !PagesFit(m, maxPages, BeforeHeapBase, PagesAdded(m, BeforeHeapBase, heap))
  {
    assert m.pageBytes > 0xC000_0000;
    DivBounds(MAX_LINEAR_MEMORY_SIZE, m.pageBytes);
    if MAX_LINEAR_MEMORY_SIZE / m.pageBytes > 1 {
      SizeStep(m.pageBytes, 2, MAX_LINEAR_MEMORY_SIZE / m.pageBytes);
    }
    assert m.initPages > 0;
  }

  /** Within 4 GB the moved base fits the 32-bit global it is stored in. */
  lemma BelowTop(pageBytes: nat, pages: nat, base: nat)
    requires KB <= pageBytes && pages <= DEFAULT_MAX_PAGES && Size(pageBytes, pages) <= MAX_LINEAR_MEMORY_SIZE
    requires base + Min(KB, pageBytes - KB) <= Size(pageBytes, pages)
    ensures base < UINT32_TOP
  {
    if pageBytes == KB {
      assert Size(pageBytes, pages) == 1024 * pages;
    }
  }

  /**
   Everything a placement promises holds if and only if the increment fits and
   the raised page limit fits 4 GB.
   */
  lemma PlacementIff(m: Memory, maxPages: nat, layout: Layout, heap: nat)
    requires Accepted(m, maxPages, layout, heap)
    ensures Placement(m, maxPages, layout, heap, PlacedBy(m, maxPages, layout, heap))
            <==> IncrementFits(m, layout, heap) && PagesFit(m, maxPages, layout, PagesNeeded(m, layout, heap))
  {
    AddedIff(m, layout, heap);
    AssertionIff(m, maxPages, layout, heap);
    if IncrementFits(m, layout, heap) && PagesFit(m, maxPages, layout, PagesNeeded(m, layout, heap)) {
      WindowHolds(m, maxPages, layout, heap);
    }
  }

  lemma WindowHolds(m: Memory, maxPages: nat, layout: Layout, heap: nat)
    requires Accepted(m, maxPages, layout, heap) && IncrementFits(m, layout, heap)
    requires var p := PlacedBy(m, maxPages, layout, heap); Size(p.pageBytes, p.maxPages) <= MAX_LINEAR_MEMORY_SIZE
    ensures Window(m, layout, heap, PlacedBy(m, maxPages, layout, heap))
  {
    var inc := PagesAdded(m, layout, heap);
    var p := PlacedBy(m, maxPages, layout, heap);
    SizeStep(m.pageBytes, m.initPages, inc);
    WindowInsideIff(m, maxPages, layout, heap);
    if layout.BeforeHeapBase? {
      BaseInside(m, heap, inc);
      SizeStep(m.pageBytes, p.initPages, p.maxPages);
      BelowTop(m.pageBytes, p.initPages, MovedBase(m, heap));
      Low32Exact(MovedBase(m, heap));
    } else if layout.NewPages? {
      NewHeapFits(m, heap, inc);
    }
  }

  /** `__heap_base` moves one KB further exactly when a page ends within the KB that would follow the heap. */
  lemma {:induction false} GapIff(end: nat, d: nat)
    requires 0 < d
    ensures Gap(end, d) == 1 <==> exists c: nat :: end <= Size(d, c) < end + 1024
    ensures Gap(end, d) <= 1
  {
    PageEnd(end, d);
    forall c: nat | end <= Size(d, c) ensures Size(d, CeilDiv(end, d)) <= Size(d, c) {
      LeastIsLeast(end, d, c);
      SizeStep(d, CeilDiv(end, d), c);
    }
  }

  /**
   Where the heap goes, in plain numbers: a memory fixed at one page or at none
   gets a larger page, all others keep their page size. The heap starts at
   `__heap_base` if that lies in the memory and the memory is not fixed at one
   page, and else at the end of the memory.
   */
  predicate Located(m: Memory, maxPages: nat, heap: nat, p: Placed) {
    var size := m.pageBytes * m.initPages;
    && p.pageBytes == (if maxPages == 1 == m.initPages then m.pageBytes + heap
                       else if maxPages == 0 < heap then heap else m.pageBytes)
    && p.heapOffset == (if heap > 0 && !(maxPages == 1 == m.initPages) && m.heapBase.Some? && m.heapBase.value < size
                        then m.heapBase.value else size)
    && (heap == 0 ==> p.heapSize == 0 && p.initPages == m.initPages && p.maxPages == maxPages && p.heapBase.None?)
  }

  /** When there is no room for a heap, in plain numbers: with no heap to place, nothing is refused. */
  predicate NoRoom(m: Memory, maxPages: nat, heap: nat, needed: nat) {
    && heap > 0
    && (|| m.pageBytes * m.initPages == 0x1_0000_0000
        || (if maxPages == 1 == m.initPages then m.pageBytes + heap >= 0x1_0000_0000
            else m.initPages + needed > 65536))
  }

  lemma {:induction false} PlacedIsLocated(m: Memory, maxPages: nat, heap: nat)
    requires Admissible(m) && m.initPages <= maxPages <= DEFAULT_MAX_PAGES && heap <= APP_HEAP_SIZE_MAX
    ensures var layout := LayoutOf(m, maxPages, heap);
            && (IncrementFits(m, layout, heap) ==>
                  (Refused(m, layout, heap) <==> NoRoom(m, maxPages, heap, PagesNeeded(m, layout, heap))))
            && (!Refused(m, layout, heap) ==> Located(m, maxPages, heap, PlacedBy(m, maxPages, layout, heap)))
  {
    hide WrappedIncrement, MissingPages, BytesToPageEnd, Gap, Low32;
    var layout := LayoutOf(m, maxPages, heap);
    AddedIff(m, layout, heap);
  }

  // ---------------------------------------------------------------------------
  // The code
  // ---------------------------------------------------------------------------

  /** The layout before `__heap_base`: the increment and the moved base. */
  method PlaceBeforeHeapBase(pageBytes: nat, initPages: nat, heapBase: nat, heap: nat)
    returns (inc: nat, newBase: nat)
    requires KB <= pageBytes < UINT32_TOP && heapBase < Size(pageBytes, initPages)
    requires heap <= APP_HEAP_SIZE_MAX
    ensures inc == WrappedIncrement(heap, BytesToPageEnd(heapBase, pageBytes), pageBytes)
                   + Gap(heapBase + heap, pageBytes)
    ensures newBase == heapBase + heap + KB * Gap(heapBase + heap, pageBytes)
    ensures heap + pageBytes - BytesToPageEnd(heapBase, pageBytes) <= UINT32_TOP ==>
              && inc == MissingPages(heap, BytesToPageEnd(heapBase, pageBytes), pageBytes)
                        + Gap(heapBase + heap, pageBytes)
              && newBase + Min(KB, pageBytes - KB) <= Size(pageBytes, initPages + inc)
  {
    ghost var m := Memory(pageBytes, initPages, initPages, Some(heapBase), false);
    var bytesOfLastPage := heapBase % pageBytes;
    if bytesOfLastPage == 0 {
      bytesOfLastPage := pageBytes;
    }
    var toEnd := pageBytes - bytesOfLastPage;
    WrappedIncrementIff(heap, toEnd, pageBytes);
    inc := Sub32(Add32(Sub32(heap, toEnd), pageBytes), 1) / pageBytes;
    newBase := heapBase + heap;
    bytesOfLastPage := newBase % pageBytes;
    if bytesOfLastPage == 0 {
      bytesOfLastPage := pageBytes;
    }
    if pageBytes - bytesOfLastPage < KB {
      newBase := newBase + KB;
      inc := inc + 1;
    }
    if heap + pageBytes - toEnd <= UINT32_TOP {
      BaseInside(m, heap, inc);
    }
  }

  /** The layout in new pages: the heap takes all of them but one KB. */
  method PlaceInNewPages(pageBytes: nat, initPages: nat, heap: nat) returns (inc: nat, heapSize: nat)
    requires KB <= pageBytes < UINT32_TOP && 0 < heap <= APP_HEAP_SIZE_MAX
    ensures inc == WrappedIncrement(heap, 0, pageBytes)
    ensures heapSize == if inc == 0 then 0 else Size(pageBytes, inc) - KB
    ensures heap + pageBytes <= UINT32_TOP ==>
              && inc == CeilDiv(heap, pageBytes)
              && Size(pageBytes, initPages) + heapSize + KB == Size(pageBytes, initPages + inc)
              && heap <= heapSize + KB < heap + pageBytes
    ensures heap + pageBytes > UINT32_TOP ==> inc == 0 && heapSize == 0
  {
    hide Size, CeilDiv, Low32, WrappedIncrement;
    inc := WrappedIncrement(heap, 0, pageBytes);
    NewPagesSpec(pageBytes, initPages, heap, inc);
    heapSize := Low32(Size(pageBytes, inc));
    if heapSize > 0 {
      heapSize := heapSize - KB;
    }
  }

  lemma NewPagesSpec(pageBytes: nat, initPages: nat, heap: nat, inc: nat)
    requires KB <= pageBytes < UINT32_TOP && 0 < heap <= APP_HEAP_SIZE_MAX
    requires inc == WrappedIncrement(heap, 0, pageBytes)
    ensures Low32(Size(pageBytes, inc)) == Size(pageBytes, inc)
    ensures if inc == 0 then Size(pageBytes, inc) == 0 else KB <= Size(pageBytes, inc)
    ensures heap + pageBytes <= UINT32_TOP ==>
              && inc == CeilDiv(heap, pageBytes) && inc > 0
              && Size(pageBytes, initPages) + Size(pageBytes, inc) == Size(pageBytes, initPages + inc)
              && heap <= Size(pageBytes, inc) < heap + pageBytes
    ensures heap + pageBytes > UINT32_TOP ==> inc == 0
  {
    PagesOf(Sub32(Add32(heap, pageBytes), 1), pageBytes, inc);
    WrappedIncrementIff(heap, 0, pageBytes);
    if heap + pageBytes <= UINT32_TOP {
      CeilIsLeast(heap, pageBytes);
      SizeStep(pageBytes, initPages, inc);
    } else {
      NothingAdded(heap, 0, pageBytes);
    }
  }

  /** The pages of a uint32 are not truncated, and take at least a KB unless there are none. */
  lemma PagesOf(y: nat, pageBytes: nat, pages: nat)
    requires y < UINT32_TOP && KB <= pageBytes && pages == y / pageBytes
    ensures Low32(Size(pageBytes, pages)) == Size(pageBytes, pages)
    ensures if pages == 0 then Size(pageBytes, pages) == 0 else KB <= Size(pageBytes, pages)
  {
    DivBounds(y, pageBytes);
    Low32Exact(Size(pageBytes, pages));
    if pages > 0 {
      AtLeastOnePage(pageBytes, pages);
    }
  }

  /** The common end of the branches that add pages: raise and clamp the page limits. */
  method RaiseLimits(initPages: nat, maxLimit: nat, added: nat, p: Placed) returns (r: Option<Placed>)
    requires p.initPages == initPages + added
    ensures r == if initPages + added > DEFAULT_MAX_PAGES then None
                 else Some(p.(maxPages := Min(maxLimit + added, DEFAULT_MAX_PAGES)))
  {
    var maxPages := maxLimit + added;
    if p.initPages > DEFAULT_MAX_PAGES {
      return None;
    }
    if maxPages > DEFAULT_MAX_PAGES {
      maxPages := DEFAULT_MAX_PAGES;
    }
    r := Some(p.(maxPages := maxPages));
  }

  /** The branches that add pages. */
  method InsertHeap(m: Memory, maxLimit: nat, heap: nat) returns (r: Option<Placed>)
    requires Admissible(m) && m.initPages <= maxLimit <= DEFAULT_MAX_PAGES
    requires 0 < heap <= APP_HEAP_SIZE_MAX && Size(m.pageBytes, m.initPages) != MAX_LINEAR_MEMORY_SIZE
    requires !LayoutOf(m, maxLimit, heap).Appended?
    ensures var layout := LayoutOf(m, maxLimit, heap);
            r == if Refused(m, layout, heap) then None else Some(PlacedBy(m, maxLimit, layout, heap))
  {
    var size := Size(m.pageBytes, m.initPages);
    if m.initPages == maxLimit && m.initPages == 0 {
      r := RaiseLimits(m.initPages, maxLimit, 1, Placed(heap, 1, 0, 0, heap, None));
    } else if m.heapBase.Some? && m.heapBase.value < size {
      var added, base := PlaceBeforeHeapBase(m.pageBytes, m.initPages, m.heapBase.value, heap);
      r := RaiseLimits(m.initPages, maxLimit, added,
                       Placed(m.pageBytes, m.initPages + added, 0, m.heapBase.value, heap, Some(Low32(base))));
    } else {
      var added, heapSize := PlaceInNewPages(m.pageBytes, m.initPages, heap);
      r := RaiseLimits(m.initPages, maxLimit, added,
                       Placed(m.pageBytes, m.initPages + added, 0, size, heapSize, None));
    }
  }

  /**
   The placement part of `memory_instantiate`, for every 32-bit memory: refused in
   the listed cases, and otherwise as promised exactly when the two conditions hold.
   */
  method MemoryInstantiate(m: Memory, heapArg: nat, maxMemoryPages: nat) returns (r: Option<Placed>)
    requires Admissible(m) && heapArg <= APP_HEAP_SIZE_MAX
    ensures var maxPages, heap := GetMaxMem(maxMemoryPages, m.initPages, m.maxPages), HeapFor(m, heapArg);
            var layout := LayoutOf(m, maxPages, heap);
            && (r.None? <==> Refused(m, layout, heap))
            && (r.Some? ==> r.value == PlacedBy(m, maxPages, layout, heap))
            && (r.Some? ==> (Placement(m, maxPages, layout, heap, r.value)
                             <==> IncrementFits(m, layout, heap)
                                  && PagesFit(m, maxPages, layout, PagesNeeded(m, layout, heap))))
            && (r.Some? ==> Located(m, maxPages, heap, r.value))
            && (IncrementFits(m, layout, heap) ==>
                  (r.None? <==> NoRoom(m, maxPages, heap, PagesNeeded(m, layout, heap))))
    // a module with its own malloc and free keeps its memory as it is
    ensures m.exportsMalloc || heapArg == 0 ==>
              r.Some? && r.value.heapSize == 0 && r.value.initPages == m.initPages && r.value.pageBytes == m.pageBytes
  {
    var maxPages := GetMaxMem(maxMemoryPages, m.initPages, m.maxPages);
    var heap := heapArg;
    if heap > 0 && m.exportsMalloc {
      heap := 0;
    }
    PlacedIsLocated(m, maxPages, heap);
    var size := Size(m.pageBytes, m.initPages);
    if heap > 0 && size == MAX_LINEAR_MEMORY_SIZE {
      return None;
    }
    if m.initPages == maxPages && m.initPages == 1 {
      if heap > UINT32_MAX - m.pageBytes {
        return None;
      }
      r := Some(Placed(m.pageBytes + heap, 1, 1, m.pageBytes, heap, None));
    } else if heap > 0 {
      r := InsertHeap(m, maxPages, heap);
    } else {
      r := Some(Placed(m.pageBytes, m.initPages, maxPages, size, 0, None));
    }
    if r.Some? {
      PlacementIff(m, maxPages, LayoutOf(m, maxPages, heap), heap);
    }
  }

  // ---------------------------------------------------------------------------
  // From placement to growth
  // ---------------------------------------------------------------------------

  /** The memory instance set up from a placement whose data was allocated at `base`. */
  function Instance(p: Placed, base: nat): LinearMemory.Mem {
    var size := Size(p.pageBytes, p.initPages);
    LinearMemory.Mem(false, p.pageBytes, p.initPages, p.maxPages, size, base, base + size,
                     base + p.heapOffset, base + p.heapOffset + p.heapSize,
                     LinearMemory.BoundCheckLimits(size))
  }

  lemma PlacedIsValid(m: Memory, maxPages: nat, layout: Layout, heap: nat, p: Placed, base: nat)
    requires Admissible(m) && heap <= APP_HEAP_SIZE_MAX
    requires Placement(m, maxPages, layout, heap, p) && base + MAX_LINEAR_MEMORY_SIZE < UINT64_TOP
    ensures LinearMemory.Valid(Instance(p, base))
  {
    hide PagesNeeded;
    SizeStep(p.pageBytes, p.initPages, p.maxPages);
  }

  /**
   The placed heap survives every run of growths: it keeps its app offset and
   size, stays inside linear memory, and stays below an adjusted `__heap_base`.
   */
  lemma {:induction false} PlacementSurvivesGrowth(m: Memory, maxPages: nat, layout: Layout, heap: nat, p: Placed,
                                                   base: nat, steps: seq<LinearMemory.GrowStep>)
    requires Admissible(m) && heap <= APP_HEAP_SIZE_MAX
    requires Placement(m, maxPages, layout, heap, p) && base + MAX_LINEAR_MEMORY_SIZE < UINT64_TOP
    ensures LinearMemory.Valid(Instance(p, base))
    ensures LinearMemory.RunOk(Instance(p, base), steps) ==>
              var n := LinearMemory.RunGrow(Instance(p, base), steps);
              && n.heapData - n.base == p.heapOffset && n.heapEnd - n.heapData == p.heapSize
              && p.heapOffset + p.heapSize <= n.size
              && (p.heapBase.Some? ==> p.heapOffset + p.heapSize <= p.heapBase.value <= n.size)
  {
    PlacedIsValid(m, maxPages, layout, heap, p, base);
    var i := Instance(p, base);
    if LinearMemory.RunOk(i, steps) {
      LinearMemory.RunGrowKeepsValid(i, steps);
    }
  }
}
