/** The physical frame allocator: a bitmap with one bit per frame, set when the frame is in use. */
module FrameAllocator {
  import opened Words

  const ONE_MIB: nat := 0x0010_0000
  const TABLES: nat := 256

  /** A usable range of the firmware's memory map, or a boot module's range. */
  datatype Range = Range(start: u32, end: u32)

  datatype MapEntry = MapEntry(addr: u32, len: u32)

  /** The ranges fixed by the linker and the boot loader. */
  datatype Boot = Boot(kernel: Range, directory: u32, tables: u32, modules: seq<Range>)

  // ----- Page arithmetic

  /** The page loops run from `start / 4096` up to, not including, `(end + 4095) / 4096`. */
  predicate InPages(start: nat, end: nat, page: nat) {
    start / PAGE_SIZE <= page < (end + PAGE_SIZE - 1) / PAGE_SIZE
  }

  ghost predicate HoldsByte(start: nat, end: nat, page: nat) {
    exists a: nat :: start <= a < end && a / PAGE_SIZE == page
  }

  /** A page loop visits exactly the pages that hold a byte of the range, plus one page when the
      range is empty and starts inside that page. */
  lemma PageLoopExact(start: nat, end: nat, page: nat)
    requires start <= end
    ensures InPages(start, end, page) <==>
            HoldsByte(start, end, page)
            || (start == end && start % PAGE_SIZE != 0 && page == start / PAGE_SIZE)
  {
    if InPages(start, end, page) && start < end {
      var a := if start / PAGE_SIZE == page then start else page * PAGE_SIZE;
      assert start <= a < end && a / PAGE_SIZE == page;
    }
  }

  // ----- Bits of one byte

  function Mask(k: nat): bv8
    requires k < 8
  {
    match k
    case 0 => 1 case 1 => 2 case 2 => 4 case 3 => 8
    case 4 => 16 case 5 => 32 case 6 => 64 case _ => 128
  }

  predicate Bit(b: bv8, k: nat)
    requires k < 8
  {
    b & Mask(k) != 0
  }

  /** Bit k of a byte counts 2^k. */
  lemma MaskExact(k: nat)
    requires k < 8
    ensures Mask(k) == (1 as bv8) << k
  {
  }

  lemma SetMask(b: bv8, k: nat, j: nat)
    requires k < 8 && j < 8
    ensures Bit(b | Mask(k), j) <==> j == k || Bit(b, j)
  {
  }

  lemma ClearMask(b: bv8, k: nat, j: nat)
    requires k < 8 && j < 8
    ensures Bit(b & !Mask(k), j) <==> j != k && Bit(b, j)
  {
  }

  // ----- What the firmware map and the boot layout say about a page

  function End(e: MapEntry): nat {
    e.addr + e.len
  }

  /** The end that the 32-bit sum gives. */
  function End32(e: MapEntry): u32 {
    Add32(e.addr, e.len)
  }

  /** The highest such end of any entry. */
  function Highest(entries: seq<MapEntry>): (h: u32)
    ensures forall e <- entries :: End32(e) <= h
    ensures h == 0 || exists e <- entries :: End32(e) == h
  {
    if entries == [] then 0 else
      var h := Highest(entries[..|entries| - 1]);
      var e := entries[|entries| - 1];
      assert entries == entries[..|entries| - 1] + [e];
      if End32(e) > h then End32(e) else h
  }

  /** The highest end, rounded up to a page, leaves 32 bits: the kernel's page count is right. */
  predicate MapFits(entries: seq<MapEntry>) {
    Highest(entries) <= 0xFFFF_F000
  }

  /** No true end address, rounded up to a page, leaves 32 bits. */
  predicate NoWrap(entries: seq<MapEntry>) {
    forall e <- entries :: End(e) <= 0xFFFF_F000
  }

  function PageCount(entries: seq<MapEntry>): nat {
    (Highest(entries) + PAGE_SIZE - 1) / PAGE_SIZE
  }

  /** (x + 4095) / 4096 in 32-bit arithmetic. */
  function PagesUpTo(x: u32): nat {
    Add32(x, PAGE_SIZE - 1) / PAGE_SIZE
  }

  /** The entry touches the page at or above 1 MiB. */
  predicate Frees(e: MapEntry, page: nat) {
    End(e) > ONE_MIB && InPages(if e.addr < ONE_MIB then ONE_MIB else e.addr, End(e), page)
  }

  predicate Usable(entries: seq<MapEntry>, page: nat) {
    exists e <- entries :: Frees(e, page)
  }

  /** The same with every sum taken modulo 2^32, as pmm_init does. */
  predicate Usable32(entries: seq<MapEntry>, page: nat) {
    exists e <- entries :: Frees32(e, page)
  }

  /** For maps that do not wrap the 32-bit sums find exactly the usable pages. */
  lemma UsableExact(entries: seq<MapEntry>, page: nat)
    requires NoWrap(entries)
    ensures MapFits(entries) && (Usable32(entries, page) <==> Usable(entries, page))
  {
    forall e <- entries
      ensures End32(e) == End(e) && (Frees32(e, page) <==> Frees(e, page))
    {
      assert NoWrap([e]);
      WrapExact(e);
    }
  }

  /** The bitmap sits on the first page boundary after the page tables. */
  function BitmapRange(boot: Boot, total: nat): (nat, nat) {
    var start := (boot.tables + TABLES * PAGE_SIZE + 0xFFF) / PAGE_SIZE * PAGE_SIZE;
    (start, start + (total + 7) / 8)
  }

  /** There are just as many pages as it takes to reach the highest end. */
  lemma PageCountExact(entries: seq<MapEntry>, n: nat)
    ensures Highest(entries) <= n * PAGE_SIZE <==> PageCount(entries) <= n
  {
  }

  /** The bitmap starts at the first page boundary that leaves room for the 256 page tables, and has the
      fewest bytes that hold one bit for every page. */
  lemma BitmapPlaced(boot: Boot, total: nat, start: nat, size: nat)
    requires start % PAGE_SIZE == 0
    ensures var (first, end) := BitmapRange(boot, total);
            && first % PAGE_SIZE == 0 && first <= end
            && (boot.tables + TABLES * PAGE_SIZE <= start <==> first <= start)
            && (total <= 8 * size <==> end - first <= size)
  {
    var behind := boot.tables + TABLES * PAGE_SIZE;
    var p := start / PAGE_SIZE;
    assert start == p * PAGE_SIZE;
    assert behind <= p * PAGE_SIZE <==> (behind + 0xFFF) / PAGE_SIZE <= p;
  }

  predicate Reserved(boot: Boot, total: nat, page: nat) {
    || InPages(boot.kernel.start, boot.kernel.end, page)
    || InPages(BitmapRange(boot, total).0, BitmapRange(boot, total).1, page)
    || page == boot.directory / PAGE_SIZE
    || boot.tables / PAGE_SIZE <= page < boot.tables / PAGE_SIZE + TABLES
    || exists m <- boot.modules :: InPages(m.start, m.end, page)
  }

  /** Every reserved range lies inside the map, and no module is in the bitmap's way. */
  predicate Fits(boot: Boot, total: nat) {
    && boot.kernel.end <= total * PAGE_SIZE
    && BitmapRange(boot, total).1 <= total * PAGE_SIZE
    && boot.directory < total * PAGE_SIZE
    && (forall m <- boot.modules :: m.end <= total * PAGE_SIZE && BitmapRange(boot, total).1 <= m.start)
  }

  /** `Frees` says what it is meant to: some byte of the entry at or above 1 MiB is in the page. */
  lemma FreesExact(e: MapEntry, page: nat)
    requires e.len > 0
    ensures Frees(e, page) <==> exists a: nat :: e.addr <= a < End(e) && a >= ONE_MIB && a / PAGE_SIZE == page
  {
    var start := if e.addr < ONE_MIB then ONE_MIB else e.addr;
    if End(e) > ONE_MIB {
      PageLoopExact(start, End(e), page);
      if HoldsByte(start, End(e), page) {
        var a: nat :| start <= a < End(e) && a / PAGE_SIZE == page;
        assert e.addr <= a < End(e) && a >= ONE_MIB;
      }
      forall a: nat | e.addr <= a < End(e) && a >= ONE_MIB && a / PAGE_SIZE == page
        ensures HoldsByte(start, End(e), page)
      {
        assert start <= a < End(e);
      }
    }
  }

  /** What the loop of pmm_init frees for one entry, every sum taken modulo 2^32. */
  predicate Frees32(e: MapEntry, page: nat) {
    var end := End32(e);
    end > ONE_MIB && (if e.addr < ONE_MIB then ONE_MIB else e.addr) / PAGE_SIZE <= page < PagesUpTo(end)
  }

  /** The 32-bit loop frees what the entry says exactly when the entry meets `NoWrap`. */
  lemma WrapExact(e: MapEntry)
    ensures (forall page: nat :: Frees32(e, page) <==> Frees(e, page)) <==> NoWrap([e])
  {
    if End(e) <= 0xFFFF_F000 {
      assert forall page: nat :: Frees32(e, page) <==> Frees(e, page);
    } else {
      var last := (End(e) + PAGE_SIZE - 1) / PAGE_SIZE - 1;
      assert Frees(e, last) && !Frees32(e, last);
      assert e in [e];
    }
  }

  /** An entry clamped to end at 4 GiB is one that the loop then drops: its end reads as 0. */
  lemma ClampedEntryLost(addr: u32, page: nat)
    requires ONE_MIB <= addr
    ensures addr / PAGE_SIZE <= page < 0x10_0000 ==> Frees(MapEntry(addr, WORD - addr), page)
    ensures !Frees32(MapEntry(addr, WORD - addr), page)
  {
  }

  /** Step 1 of pmm_init. */
  method HighestEnd(entries: seq<MapEntry>) returns (highest: u32)
    ensures highest == Highest(entries)
  {
    highest := 0;
    for i := 0 to |entries|
      invariant highest == Highest(entries[..i])
    {
      assert entries[..i + 1][..i] == entries[..i];
      var end := Add32(entries[i].addr, entries[i].len);
      if end > highest { highest := end; }
    }
    assert entries[..|entries|] == entries;
  }

  // ----- The allocator

  class Frames {
    const bitmap: array<bv8>
    const total: nat
    ghost const reserved: iset<nat>  // the frames set aside at boot

    ghost predicate Valid()
      reads bitmap
    {
      && total <= 0x10_0000
      && bitmap.Length == (total + 7) / 8
      && (total > 0 ==> Used(0))  // so that address 0 can mean failure
      && forall p: nat :: p in reserved && p < total ==> Used(p)
    }

    predicate Used(page: nat)
      requires page / 8 < bitmap.Length
      reads bitmap
    {
      Bit(bitmap[page / 8], page % 8)
    }

    /** pmm_init with the normal bitmap placement: a page is free exactly when some entry, in 32-bit sums,
        touches it at or above 1 MiB and nothing reserves it; in maps that do not wrap, exactly when some
        usable entry truly does. */
    constructor (entries: seq<MapEntry>, boot: Boot)
      requires MapFits(entries)
      requires Fits(boot, PageCount(entries))
      ensures Valid() && fresh(bitmap)
      ensures total == PageCount(entries)
      ensures reserved == iset p: nat | Reserved(boot, total, p)
      ensures forall p: nat :: p < total ==>
                (!Used(p) <==> Usable32(entries, p) && !Reserved(boot, total, p))
      ensures NoWrap(entries) ==> forall p: nat :: p < total ==>
                (!Used(p) <==> Usable(entries, p) && !Reserved(boot, total, p))
    {
      var highest := HighestEnd(entries);
      var pages := PagesUpTo(highest);
      bitmap := new bv8[(pages + 7) / 8](_ => 0xFF);
      total := pages;
      reserved := iset p: nat | Reserved(boot, pages, p);
      new;
      FreeUsable(entries);
      ReserveBoot(boot);
      if NoWrap(entries) {
        forall p: nat | p < total
          ensures Usable32(entries, p) <==> Usable(entries, p)
        {
          UsableExact(entries, p);
        }
      }
    }

    method SetBit(page: nat)
      requires page / 8 < bitmap.Length
      modifies bitmap
      ensures forall q: nat :: q / 8 < bitmap.Length ==> (Used(q) <==> q == page || old(Used(q)))
    {
      bitmap[page / 8] := bitmap[page / 8] | Mask(page % 8);
      forall q: nat | q / 8 < bitmap.Length
        ensures Used(q) <==> q == page || old(Used(q))
      {
        if q / 8 == page / 8 { SetMask(old(bitmap[page / 8]), page % 8, q % 8); }
      }
    }

    method ClearBit(page: nat)
      requires page / 8 < bitmap.Length
      modifies bitmap
      ensures forall q: nat :: q / 8 < bitmap.Length ==> (Used(q) <==> q != page && old(Used(q)))
    {
      bitmap[page / 8] := bitmap[page / 8] & !Mask(page % 8);
      forall q: nat | q / 8 < bitmap.Length
        ensures Used(q) <==> q != page && old(Used(q))
      {
        if q / 8 == page / 8 { ClearMask(old(bitmap[page / 8]), page % 8, q % 8); }
      }
    }

    /** The page loop that marks a range used. */
    method SetRange(first: nat, last: nat)
      requires bitmap.Length == (total + 7) / 8 && last <= total
      modifies bitmap
      ensures forall q: nat :: q < total ==> (Used(q) <==> first <= q < last || old(Used(q)))
    {
      var p := first;
      while p < last
        invariant first <= p && (p <= last || p == first)
        invariant forall q: nat :: q < total ==> (Used(q) <==> first <= q < p || old(Used(q)))
      {
        SetBit(p);
        p := p + 1;
      }
    }

    /** The page loop that marks a range free. */
    method ClearRange(first: nat, last: nat)
      requires bitmap.Length == (total + 7) / 8 && last <= total
      modifies bitmap
      ensures forall q: nat :: q < total ==> (Used(q) <==> !(first <= q < last) && old(Used(q)))
    {
      var p := first;
      while p < last
        invariant first <= p && (p <= last || p == first)
        invariant forall q: nat :: q < total ==> (Used(q) <==> !(first <= q < p) && old(Used(q)))
      {
        ClearBit(p);
        p := p + 1;
      }
    }

    /** Step 4 of pmm_init: starting from an all-ones bitmap, free the usable memory above 1 MiB. */
    method FreeUsable(entries: seq<MapEntry>)
      requires MapFits(entries)
      requires total == PageCount(entries) && bitmap.Length == (total + 7) / 8
      requires forall k :: 0 <= k < bitmap.Length ==> bitmap[k] == 0xFF
      modifies bitmap
      ensures forall q: nat :: q < total ==> (Used(q) <==> !Usable32(entries, q))
    {
      forall q: nat | q < total
        ensures Used(q)
      {
        AllOnes(q % 8);
      }
      for i := 0 to |entries|
        invariant forall q: nat :: q < total ==> (Used(q) <==> !Usable32(entries[..i], q))
      {
        var e := entries[i];
        assert e in entries;
        assert entries[..i + 1] == entries[..i] + [e];
        forall q: nat
          ensures Usable32(entries[..i + 1], q) <==> Usable32(entries[..i], q) || Frees32(e, q)
        {
          UsableSnoc(entries[..i], e, q);
        }
        var end := Add32(e.addr, e.len);
        if end > ONE_MIB {
          var start := if e.addr < ONE_MIB then ONE_MIB else e.addr;
          label C:
          ClearRange(start / PAGE_SIZE, PagesUpTo(end));
          assert forall q: nat :: q < total ==> (Used(q) <==> !Frees32(e, q) && old@C(Used(q)));
        }
      }
      assert entries[..|entries|] == entries;
    }

    /** Steps 5 to 8 of pmm_init: kernel image, bitmap, page directory and tables, modules. */
    method ReserveBoot(boot: Boot)
      requires bitmap.Length == (total + 7) / 8 && total <= 0xF_FFFF && Fits(boot, total)
      modifies bitmap
      ensures forall q: nat :: q < total ==> (Used(q) <==> Reserved(boot, total, q) || old(Used(q)))
    {
      SetRange(boot.kernel.start / PAGE_SIZE, PagesUpTo(boot.kernel.end));
      var bm := BitmapRange(boot, total);
      SetRange(bm.0 / PAGE_SIZE, PagesUpTo(bm.1));
      SetBit(boot.directory / PAGE_SIZE);
      var first := boot.tables / PAGE_SIZE;
      SetRange(first, first + TABLES);
      label M:
      var mods := boot.modules;
      for i := 0 to |mods|
        invariant forall q: nat :: q < total ==>
          (Used(q) <==> (exists m <- mods[..i] :: InPages(m.start, m.end, q)) || old@M(Used(q)))
      {
        assert mods[i] in mods;
        assert mods[..i + 1] == mods[..i] + [mods[i]];
        SetRange(mods[i].start / PAGE_SIZE, PagesUpTo(mods[i].end));
      }
      assert mods[..|mods|] == mods;
    }

    /** pmm_alloc_page: takes the lowest free frame; 0 exactly when every frame is in use. */
    method AllocPage() returns (phys: nat)
      requires Valid()
      modifies bitmap
      ensures Valid()
      ensures phys == 0 <==> forall q: nat :: q < total ==> old(Used(q))
      ensures phys == 0 ==> forall q: nat :: q < total ==> (Used(q) <==> old(Used(q)))
      ensures phys != 0 ==>
                var page := phys / PAGE_SIZE;
                && phys == page * PAGE_SIZE && page < total
                && !old(Used(page)) && page !in reserved
                && (forall q: nat :: q < page ==> old(Used(q)))
                && (forall q: nat :: q < total ==> (Used(q) <==> q == page || old(Used(q))))
    {
      var page := 0;
      while page < total
        invariant page <= total
        invariant forall q: nat :: q < page ==> Used(q)
      {
        if !Used(page) {
          SetBit(page);
          assert page * PAGE_SIZE / PAGE_SIZE == page;
          return page * PAGE_SIZE;
        }
        page := page + 1;
      }
      return 0;
    }
  }

  lemma AllOnes(k: nat)
    requires k < 8
    ensures Bit(0xFF, k)
  {
  }

  lemma UsableSnoc(entries: seq<MapEntry>, e: MapEntry, page: nat)
    ensures Usable32(entries + [e], page) <==> Usable32(entries, page) || Frees32(e, page)
  {
    assert forall x :: x in entries + [e] <==> x in entries || x == e;
  }
}
