/** The abstract allocator that the tiling refines: free bytes and grants. */
module HeapSpec {
  import opened Words
  import opened HeapLayout

  // ----- The abstract heap: a set of free bytes and a set of grants

  datatype Heap = Heap(free: set<nat>, granted: set<(nat, nat)>, limit: nat)

  function Meaning(bs: Layout, limit: nat): Heap {
    Heap(FreeBytes(bs), Granted(bs), limit)
  }

  function GrantBytes(g: (nat, nat)): set<nat> {
    Bytes(Block(g.0, g.1, Live))
  }

  function Fresh(lo: nat, hi: nat): set<nat> {
    if lo <= hi then Bytes(Block(lo, hi - lo, Free)) else {}
  }

  /** Allocation: bytes are moved from the free set, or from pages added to the heap, to one new
      grant with room for the request; a failed request may still have added pages. */
  ghost predicate MallocStep(s: Heap, t: Heap, size: nat, ptr: nat) {
    && s.limit <= t.limit
    && if ptr == 0 then t.granted == s.granted && t.free == s.free + Fresh(s.limit, t.limit)
       else exists n: nat :: Grants(s, t, ptr, n) && n >= HEADER + size
  }

  ghost predicate Grants(s: Heap, t: Heap, ptr: nat, n: nat) {
    && ptr >= HEADER
    && var g := (ptr - HEADER, n);
    && g !in s.granted && t.granted == s.granted + {g}
    && GrantBytes(g) !! t.free && t.free + GrantBytes(g) == s.free + Fresh(s.limit, t.limit)
  }

  /** Release: exactly the bytes of one grant return to the free set. */
  ghost predicate FreeStep(s: Heap, t: Heap, ptr: nat) {
    t.limit == s.limit && exists n: nat :: Returns(s, t, ptr, n)
  }

  ghost predicate Returns(s: Heap, t: Heap, ptr: nat, n: nat) {
    && ptr >= HEADER
    && var g := (ptr - HEADER, n);
    && g in s.granted && t.granted == s.granted - {g}
    && GrantBytes(g) !! s.free && t.free == s.free + GrantBytes(g)
  }

  /** Every byte of the heap is free or in exactly one grant. */
  ghost predicate Partitioned(s: Heap) {
    && HEAP_START <= s.limit
    && (forall a: nat :: HEAP_START <= a < s.limit <==> a in s.free || exists g <- s.granted :: a in GrantBytes(g))
    && (forall g <- s.granted :: GrantBytes(g) !! s.free)
    && (forall g <- s.granted, h <- s.granted :: g != h ==> GrantBytes(g) !! GrantBytes(h))
  }

  lemma {:induction false} GrantedMember(bs: Layout, g: (nat, nat)) returns (k: nat)
    requires g in Granted(bs)
    ensures k < |bs| && !bs[k].kind.Free? && g == (bs[k].addr, bs[k].size)
  {
    if !bs[0].kind.Free? && g == (bs[0].addr, bs[0].size) {
      k := 0;
    } else {
      k := GrantedMember(bs[1..], g);
      k := k + 1;
    }
  }

  lemma {:induction false} EveryByteOnce(bs: Layout, lo: nat, hi: nat, a: nat)
    requires Tiles(bs, lo, hi)
    ensures a in FreeBytes(bs) || (exists g <- Granted(bs) :: a in GrantBytes(g)) <==> lo <= a < hi
  {
    if bs != [] {
      TilesOrder(bs, lo, hi);
      EveryByteOnce(bs[1..], bs[0].End(), hi, a);
      var g := (bs[0].addr, bs[0].size);
      assert GrantBytes(g) == Bytes(bs[0]);
      assert Granted(bs) == (if bs[0].kind.Free? then {} else {g}) + Granted(bs[1..]);
    }
  }

  /** A tiling is a partition: nothing is both free and granted, granted twice, or lost. */
  lemma TilingPartitions(bs: Layout, limit: nat)
    requires Tiles(bs, HEAP_START, limit)
    ensures Partitioned(Meaning(bs, limit))
  {
    var s := Meaning(bs, limit);
    assert HEAP_START <= limit by { TilesOrder(bs, HEAP_START, limit); }
    forall a: nat
      ensures HEAP_START <= a < s.limit <==> a in s.free || exists g <- s.granted :: a in GrantBytes(g)
    {
      EveryByteOnce(bs, HEAP_START, limit, a);
    }
    GrantsApart(bs, limit);
  }

  lemma GrantsApart(bs: Layout, limit: nat)
    requires Tiles(bs, HEAP_START, limit)
    ensures forall g <- Granted(bs) :: GrantBytes(g) !! FreeBytes(bs)
    ensures forall g <- Granted(bs), h <- Granted(bs) :: g != h ==> GrantBytes(g) !! GrantBytes(h)
  {
    BytesDisjoint(bs, HEAP_START, limit);
    forall g <- Granted(bs)
      ensures GrantBytes(g) !! FreeBytes(bs)
    {
      var k := GrantedMember(bs, g);
      assert GrantBytes(g) == Bytes(bs[k]);
    }
    forall g <- Granted(bs), h <- Granted(bs) | g != h
      ensures GrantBytes(g) !! GrantBytes(h)
    {
      var j := GrantedMember(bs, g);
      var k := GrantedMember(bs, h);
      assert GrantBytes(g) == Bytes(bs[j]) && GrantBytes(h) == Bytes(bs[k]);
    }
  }

  // ----- Whole runs of the abstract allocator

  ghost predicate HeapStep(s: Heap, t: Heap) {
    (exists size: nat, ptr: nat :: MallocStep(s, t, size, ptr)) || (exists ptr: nat :: FreeStep(s, t, ptr))
  }

  lemma MallocKeepsPartition(s: Heap, t: Heap, size: nat, ptr: nat)
    requires Partitioned(s) && MallocStep(s, t, size, ptr)
    ensures Partitioned(t)
  {
    var added := Fresh(s.limit, t.limit);
    if ptr != 0 {
      var n: nat :| Grants(s, t, ptr, n) && n >= HEADER + size;
      var g := (ptr - HEADER, n);
      GrantKeepsPartition(s, t, g, added);
    } else {
      forall a: nat
        ensures HEAP_START <= a < t.limit <==> a in t.free || exists g <- t.granted :: a in GrantBytes(g)
      {
        assert HEAP_START <= a < s.limit <==> a in s.free || exists g <- s.granted :: a in GrantBytes(g);
      }
      GrantsInside(s);
    }
  }

  lemma GrantsInside(s: Heap)
    requires Partitioned(s)
    ensures forall g <- s.granted, a: nat :: a in GrantBytes(g) ==> HEAP_START <= a < s.limit
  {
  }

  lemma GrantKeepsPartition(s: Heap, t: Heap, g: (nat, nat), added: set<nat>)
    requires Partitioned(s) && s.limit <= t.limit && added == Fresh(s.limit, t.limit)
    requires t.granted == s.granted + {g}
    requires GrantBytes(g) !! t.free && t.free + GrantBytes(g) == s.free + added
    ensures Partitioned(t)
  {
    GrantsInside(s);
    assert forall h <- s.granted :: GrantBytes(h) !! s.free + added;
    forall a: nat
      ensures HEAP_START <= a < t.limit <==> a in t.free || exists h <- t.granted :: a in GrantBytes(h)
    {
      assert HEAP_START <= a < t.limit <==> a in s.free + added || exists h <- s.granted :: a in GrantBytes(h);
      assert a in s.free + added <==> a in t.free || a in GrantBytes(g);
    }
  }

  lemma FreeKeepsPartition(s: Heap, t: Heap, ptr: nat)
    requires Partitioned(s) && FreeStep(s, t, ptr)
    ensures Partitioned(t)
  {
    var n: nat :| Returns(s, t, ptr, n);
    var g := (ptr - HEADER, n);
    forall a: nat
      ensures HEAP_START <= a < t.limit <==> a in t.free || exists h <- t.granted :: a in GrantBytes(h)
    {
      assert HEAP_START <= a < s.limit <==> a in s.free || exists h <- s.granted :: a in GrantBytes(h);
      if h :| h in s.granted && a in GrantBytes(h) {
        assert h == g || h in t.granted;
      }
    }
  }

  /** Over every run of allocations, failed allocations and releases from an empty heap, no byte is
      lost, free and granted at once, or granted twice. */
  lemma {:induction false} RunPartitioned(run: seq<Heap>, k: nat)
    requires k < |run| && run[0] == Heap({}, {}, HEAP_START)
    requires forall i :: 0 <= i < |run| - 1 ==> HeapStep(run[i], run[i + 1])
    ensures Partitioned(run[k])
  {
    if k > 0 {
      RunPartitioned(run, k - 1);
      var (s, t) := (run[k - 1], run[k]);
      assert HeapStep(s, run[k - 1 + 1]);
      if size: nat, ptr: nat :| MallocStep(s, t, size, ptr) {
        MallocKeepsPartition(s, t, size, ptr);
      } else {
        var ptr: nat :| FreeStep(s, t, ptr);
        FreeKeepsPartition(s, t, ptr);
      }
    }
  }

  // ----- Growth by pages

  function GrowBy(bs: Layout, limit: nat, pages: nat): Layout {
    if pages == 0 then bs else Grow(GrowBy(bs, limit, pages - 1), limit + (pages - 1) * PAGE_SIZE)
  }

  lemma {:induction false} GrowByShape(bs: Layout, limit: nat, pages: nat)
    ensures var r := GrowBy(bs, limit, pages);
            && |r| == |bs| + pages && r[..|bs|] == bs
            && (forall k :: |bs| <= k < |r| ==> r[k] == Block(limit + (k - |bs|) * PAGE_SIZE, PAGE_SIZE, Free))
  {
    if pages > 0 {
      GrowByShape(bs, limit, pages - 1);
    }
  }

  lemma {:induction false} GrowByMeaning(bs: Layout, limit: nat, pages: nat)
    requires Tiles(bs, HEAP_START, limit)
    ensures var end := limit + pages * PAGE_SIZE;
            && Tiles(GrowBy(bs, limit, pages), HEAP_START, end)
            && FreeBytes(GrowBy(bs, limit, pages)) == FreeBytes(bs) + Fresh(limit, end)
            && Granted(GrowBy(bs, limit, pages)) == Granted(bs)
  {
    if pages > 0 {
      GrowByMeaning(bs, limit, pages - 1);
      var end := limit + (pages - 1) * PAGE_SIZE;
      var b := Block(end, PAGE_SIZE, Free);
      AppendTiles(GrowBy(bs, limit, pages - 1), b, end);
      AppendMeaning(GrowBy(bs, limit, pages - 1), b);
      assert Fresh(limit, end) + Bytes(b) == Fresh(limit, end + PAGE_SIZE);
    }
  }

  // ----- The operations on tilings are steps of the abstract allocator

  /** A failed request. */
  lemma GrowIsFailure(bs: Layout, limit: nat, pages: nat, size: nat)
    requires Tiles(bs, HEAP_START, limit)
    ensures MallocStep(Meaning(bs, limit), Meaning(GrowBy(bs, limit, pages), limit + pages * PAGE_SIZE), size, 0)
  {
    GrowByMeaning(bs, limit, pages);
  }

  /** A single-page request, after any growth. */
  lemma TakeIsMalloc(bs: Layout, limit: nat, pages: nat, needed: nat, i: nat, size: nat)
    requires Tiles(bs, HEAP_START, limit)
    requires var grown := GrowBy(bs, limit, pages);
             i < |grown| && grown[i].kind.Free? && MIN_BLOCK <= needed <= grown[i].size
    requires needed % 4 == 0 && HEADER + size <= needed
    ensures var grown := GrowBy(bs, limit, pages);
            MallocStep(Meaning(bs, limit), Meaning(Take(grown, i, needed), limit + pages * PAGE_SIZE),
                       size, grown[i].addr + HEADER)
  {
    var end := limit + pages * PAGE_SIZE;
    var grown := GrowBy(bs, limit, pages);
    var (s, t) := (Meaning(bs, limit), Meaning(Take(grown, i, needed), end));
    var n := Take(grown, i, needed)[i].size;
    GrowByMeaning(bs, limit, pages);
    TakeMeaning(grown, i, needed, end);
    GrantedAt(grown, HEAP_START, end, i);
    assert Grants(s, t, grown[i].addr + HEADER, n);
  }

  /** A multi-page request. */
  lemma SpanIsMalloc(bs: Layout, limit: nat, total: nat, size: nat)
    requires Tiles(bs, HEAP_START, limit) && HEADER + size <= total
    ensures var span := Block(limit, total, Span);
            MallocStep(Meaning(bs, limit), Meaning(bs + [span], limit + total), size, limit + HEADER)
  {
    var span := Block(limit, total, Span);
    var (s, t) := (Meaning(bs, limit), Meaning(bs + [span], limit + total));
    AppendMeaning(bs, span);
    BytesDisjoint(bs, HEAP_START, limit);
    GrantedBounds(bs, HEAP_START, limit);
    assert GrantBytes((limit, total)) == Fresh(limit, limit + total);
    assert Grants(s, t, limit + HEADER, total);
  }

  lemma ReleaseIsFree(bs: Layout, limit: nat, i: nat)
    requires Tiles(bs, HEAP_START, limit) && i < |bs| && bs[i].kind.Live?
    ensures FreeStep(Meaning(bs, limit), Meaning(Release(bs, i), limit), bs[i].addr + HEADER)
  {
    var (s, t) := (Meaning(bs, limit), Meaning(Release(bs, i), limit));
    ReleaseMeaning(bs, i, limit);
    assert GrantBytes((bs[i].addr, bs[i].size)) == Bytes(bs[i]);
    assert Returns(s, t, bs[i].addr + HEADER, bs[i].size);
  }
}
