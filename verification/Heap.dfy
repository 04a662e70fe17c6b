/** The kernel heap: kmalloc and kfree over the block list, the frame allocator and the page tables. */
module Heap {
  import opened Words
  import opened HeapLayout
  import opened HeapMemory
  import opened HeapSpec
  import opened BlockList
  import opened BootLayout
  import opened FrameAllocator
  import opened PageTables

  // ----- Request sizes

  /** The last size whose sums all stay below 2^32. */
  const MAX_REQUEST: nat := 0xFFFF_EFF8

  function Needed(size: u32): u32 {
    Add32(HEADER, Align4(size))
  }

  function PagesFor(needed: u32): nat {
    Add32(needed, PAGE_SIZE - 1) / PAGE_SIZE
  }

  /** The smallest block kmalloc can hand out for a request. */
  function BlockBytes(size: u32): nat {
    if Needed(size) > PAGE_SIZE then PagesFor(Needed(size)) * PAGE_SIZE else Needed(size)
  }

  /** The 32-bit arithmetic of kmalloc provides room for the request exactly up to MAX_REQUEST. */
  lemma RequestExact(size: u32)
    ensures BlockBytes(size) >= HEADER + size <==> size <= MAX_REQUEST
  {
  }

  lemma RequestFits(size: u32)
    requires 0 < size <= MAX_REQUEST
    ensures MIN_BLOCK <= Needed(size) && Needed(size) % 4 == 0 && HEADER + size <= Needed(size)
    ensures Needed(size) < HEADER + size + 4
    ensures Needed(size) > PAGE_SIZE ==>
              PagesFor(Needed(size)) > 1 && Needed(size) <= PagesFor(Needed(size)) * PAGE_SIZE < WORD
    ensures (PagesFor(Needed(size)) - 1) * PAGE_SIZE < Needed(size)
  {
  }

  // ----- What stands behind the heap's addresses

  /** Every heap page has a frame of its own, in use and not reserved at boot. */
  ghost predicate HoldsFrames(frames: Frames, backing: seq<nat>)
    requires frames.Valid()
    reads frames.bitmap
  {
    && (forall k :: 0 <= k < |backing| ==>
          backing[k] < frames.total && frames.Used(backing[k]) && backing[k] !in frames.reserved)
    && (forall j, k :: 0 <= j < k < |backing| ==> backing[j] != backing[k])
  }

  function HeapTranslation(limit: nat, backing: seq<nat>, a: u32): Option<nat>
    requires HEAP_START + |backing| * PAGE_SIZE == limit
  {
    if a >= ONE_GIB then None
    else if HEAP_START <= a < limit then
      Some(backing[(a - HEAP_START) / PAGE_SIZE] * PAGE_SIZE + a % PAGE_SIZE)
    else Some(a)
  }

  /** Heap pages are mapped to their frames; every other address below 1 GiB translates to itself, and
      nothing above is mapped. */
  ghost predicate MapsHeap(tables: Tables, limit: nat, backing: seq<nat>)
    requires tables.Valid() && HEAP_START + |backing| * PAGE_SIZE == limit
    reads tables.directory, tables.tables
  {
    forall a: u32 :: tables.Translate(a) == HeapTranslation(limit, backing, a)
  }

  lemma OffsetInFrame(frame: nat, a: nat)
    ensures (frame * PAGE_SIZE + a % PAGE_SIZE) / PAGE_SIZE == frame
  {
  }

  lemma SameOffset(a: nat, b: nat)
    requires HEAP_START <= a && HEAP_START <= b && (a - HEAP_START) / PAGE_SIZE == (b - HEAP_START) / PAGE_SIZE
    ensures a % PAGE_SIZE == b % PAGE_SIZE ==> a == b
  {
  }

  /** Growing the heap by a frame changes its translation on the new page only. */
  lemma TranslationGrows(limit: nat, backing: seq<nat>, frame: nat, a: u32)
    requires HEAP_START + |backing| * PAGE_SIZE == limit && limit + PAGE_SIZE <= HEAP_END
    ensures HeapTranslation(limit + PAGE_SIZE, backing + [frame], a) ==
            if a / PAGE_SIZE == limit / PAGE_SIZE then Some(frame * PAGE_SIZE + a % PAGE_SIZE)
            else HeapTranslation(limit, backing, a)
  {
    assert limit % PAGE_SIZE == 0;
    var page := a / PAGE_SIZE - HEAP_START / PAGE_SIZE;
    assert HEAP_START <= a ==> (a - HEAP_START) / PAGE_SIZE == page;
  }

  /** The physical half of heap_grow: take a frame and map the page at `limit` to it. */
  method MapFresh(frames: Frames, tables: Tables, limit: nat, ghost backing: seq<nat>) returns (phys: nat)
    requires frames.Valid() && tables.Valid()
    requires frames.bitmap as object !in {tables.tables, tables.directory}
    requires HEAP_START + |backing| * PAGE_SIZE == limit && limit + PAGE_SIZE <= HEAP_END
    requires HoldsFrames(frames, backing) && MapsHeap(tables, limit, backing)
    modifies frames.bitmap, tables.tables
    ensures frames.Valid() && tables.Valid()
    ensures phys == 0 <==> forall q: nat :: q < frames.total ==> old(frames.Used(q))
    ensures phys == 0 ==> HoldsFrames(frames, backing) && MapsHeap(tables, limit, backing)
    ensures phys == 0 ==> forall q: nat :: q < frames.total ==> frames.Used(q)
    ensures phys != 0 ==>
              var next := backing + [phys / PAGE_SIZE];
              HoldsFrames(frames, next) && MapsHeap(tables, limit + PAGE_SIZE, next)
  {
    phys := frames.AllocPage();
    if phys != 0 {
      tables.MapPage(limit, phys, 3);
      ghost var next := backing + [phys / PAGE_SIZE];
      forall a: u32
        ensures tables.Translate(a) == HeapTranslation(limit + PAGE_SIZE, next, a)
      {
        TranslationGrows(limit, backing, phys / PAGE_SIZE, a);
      }
    }
  }

  // ----- Where a request is placed

  /** A single-page request gets the lowest-address free block that fits, adding one page only when
      there is none, and fails only when that page cannot be had. */
  ghost predicate BlockPlacement(bs: Layout, base: nat, needed: nat, ptr: nat, cs: Layout, end: nat) {
    var pages := if FirstFit(bs, needed) < |bs| then 0 else 1;
    var grown := GrowBy(bs, base, pages);
    var i := FirstFit(grown, needed);
    if ptr == 0 then pages == 1 && cs == bs && end == base
    else i < |grown| && ptr == grown[i].addr + HEADER
         && cs == Take(grown, i, needed) && end == base + pages * PAGE_SIZE
  }

  /** A multi-page request gets new pages at the end; when they run out, those had so far stay as
      free blocks. */
  ghost predicate SpanPlacement(bs: Layout, base: nat, pages: nat, ptr: nat, cs: Layout, end: nat) {
    if ptr == 0 then
      exists grown: nat :: grown < pages && cs == GrowBy(bs, base, grown) && end == base + grown * PAGE_SIZE
    else
      ptr == base + HEADER && cs == bs + [Block(base, pages * PAGE_SIZE, Span)] && end == base + pages * PAGE_SIZE
  }

  lemma BlockPlacementIsMalloc(bs: Layout, base: nat, needed: nat, ptr: nat, cs: Layout, end: nat, size: nat)
    requires Tiles(bs, HEAP_START, base) && BlockPlacement(bs, base, needed, ptr, cs, end)
    requires MIN_BLOCK <= needed && needed % 4 == 0 && HEADER + size <= needed
    ensures MallocStep(Meaning(bs, base), Meaning(cs, end), size, ptr)
  {
    if ptr == 0 {
      GrowIsFailure(bs, base, 0, size);
    } else {
      var pages := if FirstFit(bs, needed) < |bs| then 0 else 1;
      TakeIsMalloc(bs, base, pages, needed, FirstFit(GrowBy(bs, base, pages), needed), size);
    }
  }

  lemma SpanPlacementIsMalloc(bs: Layout, base: nat, pages: nat, ptr: nat, cs: Layout, end: nat, size: nat)
    requires Tiles(bs, HEAP_START, base) && SpanPlacement(bs, base, pages, ptr, cs, end)
    requires HEADER + size <= pages * PAGE_SIZE
    ensures MallocStep(Meaning(bs, base), Meaning(cs, end), size, ptr)
  {
    if ptr == 0 {
      var grown: nat :| grown < pages && cs == GrowBy(bs, base, grown) && end == base + grown * PAGE_SIZE;
      GrowIsFailure(bs, base, grown, size);
    } else {
      SpanIsMalloc(bs, base, pages * PAGE_SIZE, size);
    }
  }

  class KernelHeap {
    const list: List
    const frames: Frames
    const tables: Tables
    var limit: nat               // heap_next_virt
    ghost var backing: seq<nat>  // the frame behind each heap page

    ghost predicate Valid()
      reads this, list, list.mem, frames.bitmap, tables.directory, tables.tables
    {
      && list.Ok() && list.hi == limit && limit % PAGE_SIZE == 0 && HEAP_START <= limit
      && Separate() && Backed(backing, limit)
    }

    /** The three parts share no memory. */
    predicate Separate()
    {
      && list.mem != tables.tables && list.mem != tables.directory
      && frames.bitmap as object !in {list.mem, tables.tables, tables.directory}
    }

    /** The heap pages up to `end` are mapped to these frames. */
    ghost predicate Backed(pages: seq<nat>, end: nat)
      reads frames.bitmap, tables.directory, tables.tables
    {
      && frames.Valid() && tables.Valid() && HEAP_START + |pages| * PAGE_SIZE == end
      && HoldsFrames(frames, pages) && MapsHeap(tables, end, pages)
    }

    /** No page can be added: the address range or the physical memory is used up. */
    ghost predicate Exhausted()
      requires frames.Valid()
      reads this, frames.bitmap
    {
      limit + PAGE_SIZE > HEAP_END || forall q: nat :: q < frames.total ==> frames.Used(q)
    }

    /** What the page tables say: different heap pages stand on different frames, all in use and none
        reserved at boot; outside the heap every address below 1 GiB translates to itself. */
    lemma FramesBehindPages(a: u32, b: u32)
      requires Valid()
      ensures HEAP_START <= a < limit ==>
                && tables.Translate(a).Some? && var frame := tables.Translate(a).value / PAGE_SIZE;
                && frame < frames.total && frames.Used(frame) && frame !in frames.reserved
      ensures HEAP_START <= a < limit && HEAP_START <= b < limit && a != b ==>
                tables.Translate(a) != tables.Translate(b)
      ensures a < ONE_GIB && !(HEAP_START <= a < limit) ==> tables.Translate(a) == Some(a)
    {
      assert tables.Translate(a) == HeapTranslation(limit, backing, a);
      assert tables.Translate(b) == HeapTranslation(limit, backing, b);
      if HEAP_START <= a < limit && HEAP_START <= b < limit {
        assert HEAP_START % PAGE_SIZE == 0 && limit <= HEAP_END;
        var j, k := (a - HEAP_START) / PAGE_SIZE, (b - HEAP_START) / PAGE_SIZE;
        OffsetInFrame(backing[j], a);
        OffsetInFrame(backing[k], b);
        if j == k { SameOffset(a, b); }
      }
    }

    /** What the machine does with paging off: the store at address a goes to frame a / 4096. It avoids
        the frames reserved at boot, for every address of the heap, exactly when nothing reserved lies at
        the heap's addresses. */
    lemma StoresAvoidReserved(boot: Boot)
      requires Valid() && frames.reserved == iset p: nat | Reserved(boot, frames.total, p)
      ensures (forall a: nat :: HEAP_START <= a < limit ==> a / PAGE_SIZE !in frames.reserved) <==>
              HeapClear(boot, frames.total, limit)
    {
      HeapClearExact(boot, frames.total, limit);
      assert forall p: nat :: p in frames.reserved <==> Reserved(boot, frames.total, p);
    }

    /** init_allocator, with the state left by the boot code. */
    constructor (entries: seq<MapEntry>, boot: Boot)
      requires MapFits(entries) && Fits(boot, PageCount(entries))
      requires boot.tables % PAGE_SIZE == 0 && boot.tables + PageTables.TABLE_COUNT * PAGE_SIZE <= WORD
      ensures Valid() && limit == HEAP_START && list.blocks == []
      ensures frames.reserved == iset p: nat | Reserved(boot, frames.total, p)
    {
      list := new List();
      frames := new Frames(entries, boot);
      tables := new Tables(boot.tables);
      limit, backing := HEAP_START, [];
    }

    /** heap_grow: one more page, mapped to a fresh frame and added to the list as a free block. */
    method HeapGrow() returns (ok: bool)
      requires Valid()
      modifies this, list, list.mem, frames.bitmap, tables.tables
      ensures Valid()
      ensures ok <==> !old(Exhausted())
      ensures ok ==> limit == old(limit) + PAGE_SIZE && list.blocks == Grow(old(list.blocks), old(limit))
      ensures !ok ==> limit == old(limit) && list.blocks == old(list.blocks) && Exhausted()
      ensures Keeps(old(list.mem[..]), list.mem[..], old(list.blocks), None, limit)
    {
      if limit + PAGE_SIZE > HEAP_END { return false; }
      var phys := MapFresh(frames, tables, limit, backing);
      if phys == 0 { return false; }
      AddPage(phys / PAGE_SIZE);
      ok := true;
    }

    /** The page at the heap's end is mapped: link it as a free block and move the end. */
    method AddPage(ghost frame: nat)
      requires list.Ok() && list.hi == limit && limit % PAGE_SIZE == 0 && HEAP_START <= limit <= HEAP_END - PAGE_SIZE
      requires Separate() && Backed(backing + [frame], limit + PAGE_SIZE)
      modifies this, list, list.mem
      ensures Valid() && limit == old(limit) + PAGE_SIZE
      ensures list.blocks == Grow(old(list.blocks), old(limit))
      ensures Keeps(old(list.mem[..]), list.mem[..], old(list.blocks), None, limit)
    {
      list.AddBlock(limit, PAGE_SIZE);
      backing := backing + [frame];
      limit := limit + PAGE_SIZE;
    }

    ghost function State(): HeapSpec.Heap
      reads this, list
    {
      Meaning(list.blocks, limit)
    }

    /** kmalloc. A request that cannot be met returns 0 only when the heap can no longer grow. */
    method Kmalloc(size: u32) returns (ptr: nat)
      requires Valid() && size <= MAX_REQUEST
      modifies this, list, list.mem, frames.bitmap, tables.tables
      ensures Valid() && limit >= old(limit)
      ensures ptr == 0 && size != 0 ==> Exhausted()
      ensures MallocStep(old(State()), State(), size, ptr)
      ensures Keeps(old(list.mem[..]), list.mem[..], old(list.blocks), None, limit)
      ensures size == 0 ==> ptr == 0 && list.blocks == old(list.blocks) && limit == old(limit)
      ensures size != 0 && Needed(size) <= PAGE_SIZE ==>
                BlockPlacement(old(list.blocks), old(limit), Needed(size), ptr, list.blocks, limit)
      ensures size != 0 && Needed(size) > PAGE_SIZE ==>
                SpanPlacement(old(list.blocks), old(limit), PagesFor(Needed(size)), ptr, list.blocks, limit)
    {
      ghost var bs, base := list.blocks, limit;
      if size == 0 {
        GrowIsFailure(bs, base, 0, 0);
        return 0;
      }
      var needed := Needed(size);
      RequestFits(size);
      if needed > PAGE_SIZE {
        var pages := PagesFor(needed);
        ptr := AllocSpan(pages);
        SpanPlacementIsMalloc(bs, base, pages, ptr, list.blocks, limit, size);
      } else {
        ptr := AllocBlock(needed);
        BlockPlacementIsMalloc(bs, base, needed, ptr, list.blocks, limit, size);
      }
    }

    /** The multi-page path: grow page by page, then make the new pages one block. */
    method AllocSpan(pages: nat) returns (ptr: nat)
      requires Valid() && pages > 0
      modifies this, list, list.mem, frames.bitmap, tables.tables
      ensures Valid() && (ptr == 0 ==> Exhausted())
      ensures SpanPlacement(old(list.blocks), old(limit), pages, ptr, list.blocks, limit)
      ensures Keeps(old(list.mem[..]), list.mem[..], old(list.blocks), None, limit)
    {
      ghost var m, bs := list.mem[..], list.blocks;
      var base := limit;
      var grown := GrowPages(pages);
      if grown < pages { return 0; }
      GrowByShape(bs, base, pages);
      ghost var n := list.mem[..];
      list.MakeSpan(base, pages * PAGE_SIZE, |bs|);
      KeepsGrowth(m, n, list.mem[..], bs, GrowBy(bs, base, pages), limit, limit);
      ptr := base + HEADER;
    }

    /** The single-page path: find a block, then split or unlink it. */
    method AllocBlock(needed: nat) returns (ptr: nat)
      requires Valid() && MIN_BLOCK <= needed <= PAGE_SIZE && needed % 4 == 0
      modifies this, list, list.mem, frames.bitmap, tables.tables
      ensures Valid() && (ptr == 0 ==> Exhausted())
      ensures BlockPlacement(old(list.blocks), old(limit), needed, ptr, list.blocks, limit)
      ensures Keeps(old(list.mem[..]), list.mem[..], old(list.blocks), None, limit)
    {
      ghost var m, bs, base := list.mem[..], list.blocks, limit;
      var prev, block := FindOrGrow(needed);
      if block == 0 { return 0; }
      ghost var n, grown := list.mem[..], list.blocks;
      FitsInPage(bs, base, needed);
      GrantFound(prev, block, needed);
      KeepsGrowth(m, n, list.mem[..], bs, grown, limit, limit);
      ptr := block + HEADER;
    }

    /** Split or unlink the block that the search found. */
    method GrantFound(prev: nat, block: nat, needed: nat)
      requires Valid() && MIN_BLOCK <= needed && needed % 4 == 0 && Found(list.blocks, needed, prev, block)
      modifies list, list.mem
      ensures Valid() && list.blocks == Take(old(list.blocks), FirstFit(old(list.blocks), needed), needed)
      ensures Keeps(old(list.mem[..]), list.mem[..], old(list.blocks), None, limit)
    {
      list.Grant(prev, block, needed, FirstFit(list.blocks, needed));
    }

    /** The growth loop of the multi-page path: it stops early only when the heap cannot grow. */
    method GrowPages(pages: nat) returns (grown: nat)
      requires Valid()
      modifies this, list, list.mem, frames.bitmap, tables.tables
      ensures Valid() && grown <= pages && (grown < pages ==> Exhausted())
      ensures limit == old(limit) + grown * PAGE_SIZE
      ensures list.blocks == GrowBy(old(list.blocks), old(limit), grown)
      ensures Keeps(old(list.mem[..]), list.mem[..], old(list.blocks), None, limit)
    {
      ghost var m, bs, base := list.mem[..], list.blocks, limit;
      grown := 0;
      while grown < pages
        invariant Valid() && grown <= pages && limit == base + grown * PAGE_SIZE
        invariant list.blocks == GrowBy(bs, base, grown)
        invariant Keeps(m, list.mem[..], bs, None, limit)
        decreases pages - grown
      {
        GrowByShape(bs, base, grown);
        ghost var n, cs, mid := list.mem[..], list.blocks, limit;
        var ok := HeapGrow();
        KeepsGrowth(m, n, list.mem[..], bs, cs, mid, limit);
        if !ok { return; }
        grown := grown + 1;
      }
    }

    /** Search the list; when nothing fits, grow once and search again. At most two searches happen. */
    method FindOrGrow(needed: nat) returns (prev: nat, block: nat)
      requires Valid() && needed <= PAGE_SIZE
      modifies this, list, list.mem, frames.bitmap, tables.tables
      ensures Valid() && (block == 0 ==> Exhausted())
      ensures var miss := FirstFit(old(list.blocks), needed) == |old(list.blocks)|;
              && (block == 0 ==> miss)
              && list.blocks == (if miss && block != 0 then Grow(old(list.blocks), old(limit)) else old(list.blocks))
              && limit == (if miss && block != 0 then old(limit) + PAGE_SIZE else old(limit))
      ensures block != 0 ==> Found(list.blocks, needed, prev, block)
      ensures Keeps(old(list.mem[..]), list.mem[..], old(list.blocks), None, limit)
    {
      ghost var bs, base, searches := list.blocks, limit, 1;
      prev, block := list.FindPrevForSize(needed);
      NoFit(bs, base, needed);
      while block == 0  // goto retry
        invariant Valid() && 1 <= searches <= 2
        invariant searches == 1 ==> list.blocks == bs && limit == base
        invariant searches == 1 ==> (block == 0 <==> FirstFit(bs, needed) == |bs|)
        invariant searches == 2 ==> list.blocks == Grow(bs, base) && limit == base + PAGE_SIZE
        invariant searches == 2 ==> FirstFit(bs, needed) == |bs| && block != 0
        invariant block != 0 ==> Found(list.blocks, needed, prev, block)
        invariant Keeps(old(list.mem[..]), list.mem[..], bs, None, limit)
        decreases 2 - searches
      {
        var ok := HeapGrow();
        if !ok { return 0, 0; }
        searches := 2;
        FitsInPage(bs, base, needed);
        prev, block := list.FindPrevForSize(needed);
        NoFit(list.blocks, limit, needed);
      }
    }

    /** kfree of NULL, or of a pointer that a request returned. The heap survives exactly when that was a
        single-page request; after a multi-page one the list runs into
        a loop. */
    method Kfree(ptr: nat, ghost i: nat)
      requires Valid() && (ptr == 0 || IsGranted(list.blocks, i, ptr))
      modifies list, list.mem
      ensures ptr == 0 ==> Valid() && list.blocks == old(list.blocks) && list.mem[..] == old(list.mem[..])
      ensures ptr != 0 && old(list.blocks[i].kind.Live?) ==>
                && Valid() && FreeStep(old(State()), State(), ptr)
                && list.blocks == Release(old(list.blocks), i) && JoinedAt(old(list.blocks), i, list.blocks)
                && Keeps(old(list.mem[..]), list.mem[..], old(list.blocks), Some(old(list.blocks[i])), limit)
      ensures HoldsList(list.mem[..], list.head) <==> ptr == 0 || old(list.blocks[i].kind.Live?)
    {
      if ptr == 0 { return; }
      if list.blocks[i].kind.Live? { ReleaseIsFree(list.blocks, limit, i); }
      list.Kfree(ptr, i);
    }

    /** What the holder of a block does to it: any aligned word store inside its payload. */
    method Poke(addr: nat, v: u32, ghost i: nat)
      requires Valid() && i < |list.blocks| && !list.blocks[i].kind.Free?
      requires list.blocks[i].addr + HEADER <= addr < list.blocks[i].End() && addr % 4 == 0
      modifies list.mem
      ensures Valid() && State() == old(State())
      ensures addr < list.mem.Length && list.mem[..] == old(list.mem[..])[addr := v]
    {
      PayloadApart(list.mem[..], list.head, list.blocks, limit, i, addr, v);
      list.mem[addr] := v;
    }
  }

  /** A pointer that a request returned and nobody has freed. */
  ghost predicate IsGranted(bs: Layout, i: nat, ptr: nat) {
    i < |bs| && !bs[i].kind.Free? && ptr == bs[i].addr + HEADER
  }

  /** A store in a payload touches no length word and no link. */
  lemma PayloadApart(m: seq<nat>, head: nat, bs: Layout, hi: nat, i: nat, addr: nat, v: nat)
    requires |m| == MEMORY && Placed(bs, hi) && Represents(m, head, bs) && i < |bs|
    requires bs[i].addr + HEADER <= addr < bs[i].End()
    ensures addr < MEMORY && Represents(m[addr := v], head, bs)
  {
    TilesOrder(bs, HEAP_START, hi);
    var n := m[addr := v];
    forall k | 0 <= k < |bs|
      ensures Stored(n, bs, k)
    {
      assert Stored(m, bs, k);
      assert k < i ==> bs[k].End() <= bs[i].addr;
      assert i < k ==> bs[i].End() <= bs[k].addr;
    }
  }

  /** A search that succeeds stands on the first fitting block. */
  ghost predicate Found(bs: Layout, needed: nat, prev: nat, block: nat) {
    var i := FirstFit(bs, needed);
    i < |bs| && block == bs[i].addr && prev == PrevPointer(bs, i)
  }

  lemma NoFit(bs: Layout, hi: nat, needed: nat)
    requires Placed(bs, hi)
    ensures Pointer(bs, FirstFit(bs, needed)) == 0 <==> FirstFit(bs, needed) == |bs|
  {
    TilesOrder(bs, HEAP_START, hi);
  }

  /** After one growth a single-page request fits. */
  lemma FitsInPage(bs: Layout, base: nat, needed: nat)
    requires needed <= PAGE_SIZE
    ensures FirstFit(Grow(bs, base), needed) < |Grow(bs, base)|
    ensures GrowBy(bs, base, 0) == bs && GrowBy(bs, base, 1) == Grow(bs, base)
  {
    assert Grow(bs, base)[|bs|] == Block(base, PAGE_SIZE, Free);
    assert GrowBy(bs, base, 0) == bs;
  }

  /** Keeping payloads through one more operation, on a tiling that still has every old grant. */
  lemma KeepsGrowth(m: seq<nat>, n: seq<nat>, o: seq<nat>, bs: Layout, cs: Layout, mid: nat, hi: nat)
    requires Keeps(m, n, bs, None, mid) && Keeps(n, o, cs, None, hi) && mid <= hi
    requires bs <= cs
    ensures Keeps(m, o, bs, None, hi)
  {
    forall b <- bs | !b.kind.Free?
      ensures SamePayload(m, o, b)
    {
      assert b in cs;
      assert SamePayload(m, n, b) && SamePayload(n, o, b);
    }
  }
}
