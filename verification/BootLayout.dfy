/** The heap's addresses as physical memory. The boot code fills the page tables but nothing switches
    paging on, so a store at a heap address reaches the frame of that number, whatever the tables say. */
module BootLayout {
  import opened Words
  import opened FrameAllocator
  import opened HeapLayout

  /** The frames that stores into a heap which ends at `limit` reach. */
  predicate HeapFrame(limit: nat, page: nat) {
    HEAP_START / PAGE_SIZE <= page < limit / PAGE_SIZE
  }

  /** A range of addresses has no page among the heap's. */
  predicate Apart(start: nat, end: nat, limit: nat) {
    || end <= HEAP_START || limit <= start
    || start / PAGE_SIZE >= (end + PAGE_SIZE - 1) / PAGE_SIZE  // the range has no page at all
  }

  /** Kernel image, bitmap, page directory, page tables and modules all keep away from the heap. */
  predicate HeapClear(boot: Boot, total: nat, limit: nat) {
    var tables := boot.tables / PAGE_SIZE * PAGE_SIZE;
    || limit == HEAP_START
    || (&& Apart(boot.kernel.start, boot.kernel.end, limit)
        && Apart(BitmapRange(boot, total).0, BitmapRange(boot, total).1, limit)
        && (boot.directory < HEAP_START || limit <= boot.directory)
        && (tables + TABLES * PAGE_SIZE <= HEAP_START || limit <= tables)
        && forall m <- boot.modules :: Apart(m.start, m.end, limit))
  }

  lemma ApartExact(start: nat, end: nat, limit: nat)
    requires HEAP_START < limit && limit % PAGE_SIZE == 0
    ensures Apart(start, end, limit) <==> forall p: nat :: HeapFrame(limit, p) ==> !InPages(start, end, p)
  {
    var first, last := start / PAGE_SIZE, (end + PAGE_SIZE - 1) / PAGE_SIZE;
    var low, high := HEAP_START / PAGE_SIZE, limit / PAGE_SIZE;
    assert end <= HEAP_START <==> last <= low;
    assert limit <= start <==> high <= first;
    if !Apart(start, end, limit) {
      var p := if first < low then low else first;
      assert HeapFrame(limit, p) && InPages(start, end, p);
    }
  }

  lemma TablesApart(start: nat, limit: nat)
    requires HEAP_START < limit && limit % PAGE_SIZE == 0 && start % PAGE_SIZE == 0
    ensures start + TABLES * PAGE_SIZE <= HEAP_START || limit <= start <==>
            forall p: nat :: HeapFrame(limit, p) ==> !(start / PAGE_SIZE <= p < start / PAGE_SIZE + TABLES)
  {
    var first, low, high := start / PAGE_SIZE, HEAP_START / PAGE_SIZE, limit / PAGE_SIZE;
    assert start == first * PAGE_SIZE && limit == high * PAGE_SIZE;
    if low < first + TABLES && first < high {
      var p := if first < low then low else first;
      assert HeapFrame(limit, p) && first <= p < first + TABLES;
    }
  }

  lemma DirectoryApart(directory: nat, limit: nat)
    requires HEAP_START < limit && limit % PAGE_SIZE == 0
    ensures directory < HEAP_START || limit <= directory <==> !HeapFrame(limit, directory / PAGE_SIZE)
  {
  }

  /** Heap stores avoid every frame that was reserved at boot exactly when the boot loader and the linker
      have kept everything reserved out of the heap's addresses. */
  lemma HeapClearExact(boot: Boot, total: nat, limit: nat)
    requires HEAP_START <= limit && limit % PAGE_SIZE == 0
    ensures HeapClear(boot, total, limit) <==>
            forall a: nat :: HEAP_START <= a < limit ==> !Reserved(boot, total, a / PAGE_SIZE)
  {
    if limit > HEAP_START {
      FramesOfAddresses(boot, total, limit);
      ApartExact(boot.kernel.start, boot.kernel.end, limit);
      var (start, end) := BitmapRange(boot, total);
      ApartExact(start, end, limit);
      DirectoryApart(boot.directory, limit);
      TablesApart(boot.tables / PAGE_SIZE * PAGE_SIZE, limit);
      forall m <- boot.modules
        ensures Apart(m.start, m.end, limit) <==> forall p: nat :: HeapFrame(limit, p) ==> !InPages(m.start, m.end, p)
      {
        ApartExact(m.start, m.end, limit);
      }
    }
  }

  lemma FramesOfAddresses(boot: Boot, total: nat, limit: nat)
    requires HEAP_START <= limit && limit % PAGE_SIZE == 0
    ensures (forall a: nat :: HEAP_START <= a < limit ==> !Reserved(boot, total, a / PAGE_SIZE)) <==>
            forall p: nat :: HeapFrame(limit, p) ==> !Reserved(boot, total, p)
  {
    if forall a: nat :: HEAP_START <= a < limit ==> !Reserved(boot, total, a / PAGE_SIZE) {
      forall p: nat | HeapFrame(limit, p)
        ensures !Reserved(boot, total, p)
      {
        var a := p * PAGE_SIZE;
        assert HEAP_START <= a < limit && a / PAGE_SIZE == p;
      }
    }
  }

  // ----- A boot that nothing turns away

  const SAMPLE_MAP: seq<MapEntry> := [MapEntry(0x0010_0000, 0x03F0_0000)]
  const SAMPLE_BOOT: Boot :=
    Boot(Range(0x0010_0000, 0x0023_0000), 0x0011_0000, 0x0011_1000, [Range(0x0040_0000, 0x0050_0000)])

  /** The initialisation accepts a module that starts where the heap does; the heap's first page is then
      the module's. */
  lemma HeapMayMeetModule()
    ensures MapFits(SAMPLE_MAP) && Fits(SAMPLE_BOOT, PageCount(SAMPLE_MAP)) && SAMPLE_BOOT.tables % PAGE_SIZE == 0
    ensures Reserved(SAMPLE_BOOT, PageCount(SAMPLE_MAP), HEAP_START / PAGE_SIZE)
    ensures !HeapClear(SAMPLE_BOOT, PageCount(SAMPLE_MAP), HEAP_START + PAGE_SIZE)
  {
    assert Highest(SAMPLE_MAP) == 0x0400_0000 by { assert SAMPLE_MAP[..0] == []; }
    var m := SAMPLE_BOOT.modules[0];
    assert m in SAMPLE_BOOT.modules && InPages(m.start, m.end, HEAP_START / PAGE_SIZE);
    assert !Apart(m.start, m.end, HEAP_START + PAGE_SIZE);
  }
}
