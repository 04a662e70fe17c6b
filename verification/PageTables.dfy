/** Two-level 32-bit page tables: the boot identity map of the first GiB, the one-page remapping
    that the heap performs, and the identity check. Tables are read and written at their physical
    addresses. Translation here is what the tables say; BootLayout is about what the machine does. */
module PageTables {
  import opened Words

  const TABLE_COUNT: nat := 256     // tables built at boot
  const ENTRIES: nat := 1024        // entries of a directory or a table
  const ONE_GIB: nat := 0x4000_0000

  class Tables {
    const directory: array<u32>
    const tables: array<u32>  // entry e of table t is tables[t * ENTRIES + e]
    const base: nat           // physical address of the first table

    ghost predicate Valid()
      reads directory
    {
      && directory.Length == ENTRIES && tables.Length == TABLE_COUNT * ENTRIES
      && directory != tables
      && base % PAGE_SIZE == 0 && base + TABLE_COUNT * PAGE_SIZE <= WORD
      && (forall t :: 0 <= t < TABLE_COUNT ==> directory[t] == base + t * PAGE_SIZE + 3)
      && (forall t :: TABLE_COUNT <= t < ENTRIES ==> directory[t] == 0)
    }

    /** Where the entry for an address sits, given its directory entry. */
    function EntryIndex(pde: u32, addr: u32): int {
      (pde / PAGE_SIZE * PAGE_SIZE - base) / PAGE_SIZE * ENTRIES + addr / PAGE_SIZE % ENTRIES
    }

    /** Below 1 GiB the two indices together number the page; above, no directory entry is present. */
    lemma IndexFlat(addr: u32)
      requires Valid()
      ensures addr < ONE_GIB ==>
                var pde := directory[addr / 0x40_0000];
                pde % 2 == 1 && EntryIndex(pde, addr) == addr / PAGE_SIZE < tables.Length
      ensures addr >= ONE_GIB ==> directory[addr / 0x40_0000] % 2 == 0
    {
      if addr < ONE_GIB {
        var t := addr / 0x40_0000;
        PageNumber(addr);
        assert directory[t] == base + t * PAGE_SIZE + 3;
        TableNumber(base, t);
      }
    }

    /** The table walk: directory entry, table entry, offset. */
    function Translate(addr: u32): Option<nat>
      requires Valid()
      reads directory, tables
    {
      var pde := directory[addr / 0x40_0000];
      IndexFlat(addr);
      if pde % 2 == 0 then None else Decode(tables[EntryIndex(pde, addr)], addr)
    }

    /** The boot code: clear the directory, then fill 256 tables with consecutive frames. */
    constructor (base: u32)
      requires base % PAGE_SIZE == 0 && base + TABLE_COUNT * PAGE_SIZE <= WORD
      ensures Valid() && fresh(directory) && fresh(tables)
      ensures forall k :: 0 <= k < tables.Length ==> tables[k] == k * PAGE_SIZE + 3
      ensures forall a: u32 :: Translate(a) == if a < ONE_GIB then Some(a) else None
    {
      directory := new u32[ENTRIES](_ => 0);
      tables := new u32[TABLE_COUNT * ENTRIES](_ => 0);
      this.base := base;
      new;
      var table, phys := base, 0;  // esi, ebx
      for t := 0 to TABLE_COUNT
        invariant table == base + t * PAGE_SIZE && phys == t * ENTRIES * PAGE_SIZE
        invariant forall k :: 0 <= k < t ==> directory[k] == base + k * PAGE_SIZE + 3
        invariant forall k :: t <= k < ENTRIES ==> directory[k] == 0
        invariant forall k :: 0 <= k < t * ENTRIES ==> tables[k] == k * PAGE_SIZE + 3
      {
        phys := FillTable(t, phys);
        directory[t] := table + 3;
        table := table + PAGE_SIZE;
      }
      forall a: u32
        ensures Translate(a) == if a < ONE_GIB then Some(a) else None
      {
        IndexFlat(a);
      }
    }

    /** The inner boot loop: one table of consecutive present, writable frames. */
    method FillTable(t: nat, start: nat) returns (phys: nat)
      requires tables.Length == TABLE_COUNT * ENTRIES && t < TABLE_COUNT
      requires start == t * ENTRIES * PAGE_SIZE
      modifies tables
      ensures phys == (t + 1) * ENTRIES * PAGE_SIZE
      ensures forall k :: t * ENTRIES <= k < (t + 1) * ENTRIES ==> tables[k] == k * PAGE_SIZE + 3
      ensures forall k :: 0 <= k < t * ENTRIES ==> tables[k] == old(tables[k])
    {
      phys := start;
      for e := 0 to ENTRIES
        invariant phys == (t * ENTRIES + e) * PAGE_SIZE
        invariant forall k :: t * ENTRIES <= k < t * ENTRIES + e ==> tables[k] == k * PAGE_SIZE + 3
        invariant forall k :: 0 <= k < t * ENTRIES ==> tables[k] == old(tables[k])
      {
        tables[t * ENTRIES + e] := phys + 3;
        phys := phys + PAGE_SIZE;
      }
    }

    /** vmm_map_page under a present directory entry: a one-page update of the translation. */
    method MapPage(virt: u32, phys: u32, flags: u32)
      requires Valid() && virt < ONE_GIB
      modifies tables
      ensures tables[..] == old(tables[..])[virt / PAGE_SIZE := MakeEntry(phys, flags)]
      ensures forall a: u32 :: Translate(a) ==
                if a / PAGE_SIZE != virt / PAGE_SIZE then old(Translate(a))
                else if flags % 2 == 0 then None
                else Some(phys / PAGE_SIZE * PAGE_SIZE + a % PAGE_SIZE)
    {
      var pde := directory[virt / 0x40_0000];
      IndexFlat(virt);
      tables[EntryIndex(pde, virt)] := MakeEntry(phys, flags);
      forall a: u32
        ensures Translate(a) ==
                if a / PAGE_SIZE != virt / PAGE_SIZE then old(Translate(a))
                else if flags % 2 == 0 then None
                else Some(phys / PAGE_SIZE * PAGE_SIZE + a % PAGE_SIZE)
      {
        IndexFlat(a);
      }
    }

    /** vmm_check_identity_page */
    method CheckIdentityPage(addr: u32) returns (identity: bool)
      requires Valid()
      ensures identity <==> Translate(addr) == Some(addr)
    {
      var pde := directory[addr / 0x40_0000];
      if pde % 2 == 0 { return false; }
      IndexFlat(addr);
      var pte := tables[EntryIndex(pde, addr)];
      if pte % 2 == 0 { return false; }
      var phys := pte / PAGE_SIZE * PAGE_SIZE + addr % PAGE_SIZE;
      return phys == addr;
    }

    /** vmm_check_identity_range: the step may wrap, but no page near the top is mapped. When the
        range ends late enough in its last page, the answer is about every address of the range. */
    method CheckIdentityRange(start: u32, end: u32) returns (identity: bool)
      requires Valid()
      ensures identity <==> forall a: u32 :: Visited(start, end, a) ==> Translate(a) == Some(a)
      ensures Covers(start, end) ==>
                (identity <==> forall a: u32 :: start <= a < end ==> Translate(a) == Some(a))
    {
      var a := start;
      assert forall v: u32 :: Visited(start, end, v) ==> v >= a;
      while a < end
        invariant start <= a && (a - start) % PAGE_SIZE == 0
        invariant forall v: u32 :: Visited(start, end, v) && v < a ==> Translate(v) == Some(v)
        decreases end - a
      {
        assert Visited(start, end, a);
        var same := CheckIdentityPage(a);
        if !same {
          identity := false;
          return;
        }
        IndexFlat(a);
        NextVisited(start, end, a);
        a := Add32(a, PAGE_SIZE);
      }
      identity := true;
      if Covers(start, end) { VisitedCover(start, end); }
    }

    /** In a covered range the visited addresses speak for all. */
    lemma VisitedCover(start: u32, end: u32)
      requires Valid() && Covers(start, end)
      requires forall a: u32 :: Visited(start, end, a) ==> Translate(a) == Some(a)
      ensures forall a: u32 :: start <= a < end ==> Translate(a) == Some(a)
    {
      forall b: u32 | start <= b < end
        ensures Translate(b) == Some(b)
      {
        var v := CoversExact(start, end, b);
        SamePage(v, b);
      }
    }

    /** Translating to itself is a property of the whole page. */
    lemma SamePage(a: u32, b: u32)
      requires Valid() && a / PAGE_SIZE == b / PAGE_SIZE
      ensures Translate(a) == Some(a) <==> Translate(b) == Some(b)
    {
      IndexFlat(a);
      IndexFlat(b);
    }
  }

  lemma PageNumber(addr: u32)
    ensures addr / 0x40_0000 * ENTRIES + addr / PAGE_SIZE % ENTRIES == addr / PAGE_SIZE
    ensures addr < ONE_GIB <==> addr / 0x40_0000 < TABLE_COUNT
  {
  }

  lemma TableNumber(base: nat, t: nat)
    requires base % PAGE_SIZE == 0
    ensures ((base + t * PAGE_SIZE + 3) / PAGE_SIZE * PAGE_SIZE - base) / PAGE_SIZE == t
    ensures (base + t * PAGE_SIZE + 3) % 2 == 1
  {
  }

  /** (phys & ~0xFFF) | (flags & 0xFFF) */
  function MakeEntry(phys: u32, flags: u32): (pte: u32)
    ensures pte % PAGE_SIZE == flags % PAGE_SIZE
    ensures forall a: u32 :: Decode(pte, a) ==
              if flags % 2 == 0 then None else Some(phys / PAGE_SIZE * PAGE_SIZE + a % PAGE_SIZE)
  {
    var frame, low := phys / PAGE_SIZE, flags % PAGE_SIZE;
    EntryParts(frame, low);
    assert low % 2 == flags % 2 && frame < 0x10_0000;
    frame * PAGE_SIZE + low
  }

  lemma EntryParts(frame: nat, low: nat)
    requires low < PAGE_SIZE
    ensures (frame * PAGE_SIZE + low) / PAGE_SIZE == frame && (frame * PAGE_SIZE + low) % PAGE_SIZE == low
    ensures (frame * PAGE_SIZE + low) % 2 == low % 2
  {
  }

  /** A present entry gives the frame; the address gives the offset. */
  function Decode(pte: u32, addr: u32): Option<nat> {
    if pte % 2 == 0 then None else Some(pte / PAGE_SIZE * PAGE_SIZE + addr % PAGE_SIZE)
  }

  /** The addresses at which the range check looks. */
  predicate Visited(start: nat, end: nat, a: nat) {
    start <= a < end && (a - start) % PAGE_SIZE == 0
  }

  /** The last byte of the range lies no earlier in its page than the first byte does in its own. */
  predicate Covers(start: nat, end: nat) {
    start >= end || (end - 1) % PAGE_SIZE >= start % PAGE_SIZE
  }

  lemma VisitedGap(start: nat, a: nat, v: nat)
    requires start <= a && start <= v && (a - start) % PAGE_SIZE == 0 && (v - start) % PAGE_SIZE == 0
    requires v < a + PAGE_SIZE
    ensures v <= a
  {
  }

  /** Between a visited address and the next one there is none. */
  lemma NextVisited(start: nat, end: nat, a: nat)
    requires start <= a && (a - start) % PAGE_SIZE == 0
    ensures (a + PAGE_SIZE - start) % PAGE_SIZE == 0
    ensures forall v: nat :: Visited(start, end, v) && v < a + PAGE_SIZE ==> v <= a
  {
    forall v: nat | Visited(start, end, v) && v < a + PAGE_SIZE
      ensures v <= a
    {
      VisitedGap(start, a, v);
    }
  }

  /** In a covered range every address has a visited address on its page. */
  lemma CoversExact(start: u32, end: u32, a: u32) returns (v: u32)
    requires Covers(start, end) && start <= a < end
    ensures Visited(start, end, v) && v / PAGE_SIZE == a / PAGE_SIZE
  {
    var k := a / PAGE_SIZE - start / PAGE_SIZE;
    v := start + k * PAGE_SIZE;
  }

  predicate NotPage(p: nat, page: nat) { p != page }

  ghost predicate AllVisited(start: nat, end: nat, pages: iset<nat>) {
    forall a: nat :: Visited(start, end, a) ==> a / PAGE_SIZE in pages
  }

  ghost predicate AllTouched(start: nat, end: nat, pages: iset<nat>) {
    forall a: nat :: start <= a < end ==> a / PAGE_SIZE in pages
  }

  /** Whatever pages translate to themselves, looking only at the visited addresses gives the answer
      for the whole range: this holds exactly for covered ranges. */
  lemma CheckExact(start: u32, end: u32)
    ensures (forall pages: iset<nat> :: AllVisited(start, end, pages) <==> AllTouched(start, end, pages))
            <==> Covers(start, end)
  {
    if Covers(start, end) {
      forall pages: iset<nat> | AllVisited(start, end, pages)
        ensures AllTouched(start, end, pages)
      {
        forall a: nat | start <= a < end
          ensures a / PAGE_SIZE in pages
        {
          var v := CoversExact(start, end, a);
        }
      }
      assert forall a: nat :: Visited(start, end, a) ==> start <= a < end;
    } else {
      var last := (end - 1) / PAGE_SIZE;
      var pages := iset p: nat | NotPage(p, last);
      forall v: nat | Visited(start, end, v)
        ensures v / PAGE_SIZE in pages
      {
        UncoveredMissesLastPage(start, end, v);
      }
      assert AllVisited(start, end, pages);
      assert (end - 1) / PAGE_SIZE !in pages;
      assert !AllTouched(start, end, pages);
    }
  }

  /** In a range that is not covered the check never looks at the last page, so it may answer true
      there whatever that page maps to. */
  lemma UncoveredMissesLastPage(start: nat, end: nat, v: nat)
    requires !Covers(start, end)
    requires Visited(start, end, v)
    ensures v / PAGE_SIZE != (end - 1) / PAGE_SIZE
  {
    var k := (v - start) / PAGE_SIZE;
    assert v == start + k * PAGE_SIZE;
  }
}
