/** What the heap means: a tiling of its address range into blocks, some of them linked in the
    kernel's block list. Every heap operation is a small function on tilings. */
module HeapLayout {
  import opened Words

  const HEAP_START: nat := 0x0040_0000
  const HEAP_END: nat := 0x1000_0000
  const HEADER: nat := 8       // sizeof(memory_block_t)
  const MIN_BLOCK: nat := 12   // header and four bytes

  /** Free blocks are linked; Live blocks are handed out and off the list; a Span is a multi-page
      block, handed out but still linked with its used flag set. */
  datatype Kind = Free | Live | Span

  datatype Block = Block(addr: nat, size: nat, kind: Kind) {
    function End(): nat { addr + size }
    predicate Linked() { !kind.Live? }
    predicate Holds(a: nat) { addr <= a < End() }
    predicate Sound() { size >= MIN_BLOCK && size % 4 == 0 }
  }

  type Layout = seq<Block>

  // ----- Tilings

  /** The blocks lie end to end from lo to hi. */
  ghost predicate Tiles(bs: Layout, lo: nat, hi: nat) {
    if bs == [] then lo == hi
    else bs[0].addr == lo && bs[0].Sound() && Tiles(bs[1..], bs[0].End(), hi)
  }

  lemma {:induction false} TilesConcat(a: Layout, b: Layout, lo: nat, mid: nat, hi: nat)
    requires Tiles(a, lo, mid) && Tiles(b, mid, hi)
    ensures Tiles(a + b, lo, hi)
  {
    if a == [] {
      assert a + b == b;
    } else {
      TilesConcat(a[1..], b, a[0].End(), mid, hi);
      assert (a + b)[1..] == a[1..] + b;
    }
  }

  lemma {:induction false} TilesSplit(bs: Layout, i: nat, lo: nat, hi: nat) returns (mid: nat)
    requires Tiles(bs, lo, hi) && i <= |bs|
    ensures Tiles(bs[..i], lo, mid) && Tiles(bs[i..], mid, hi) && lo <= mid <= hi
    ensures i < |bs| ==> mid == bs[i].addr
    ensures i > 0 ==> mid == bs[i - 1].End()
    ensures i == |bs| ==> mid == hi
  {
    TilesOrder(bs, lo, hi);
    if i == 0 {
      mid := lo;
    } else {
      mid := TilesSplit(bs[1..], i - 1, bs[0].End(), hi);
      assert bs[..i][1..] == bs[1..][..i - 1];
      assert bs[1..][i - 1..] == bs[i..];
    }
  }

  /** A tiling is strictly address-sorted, without gaps or overlaps, and inside its bounds. */
  lemma {:induction false} TilesOrder(bs: Layout, lo: nat, hi: nat)
    requires Tiles(bs, lo, hi)
    ensures lo <= hi && (lo == hi <==> bs == [])
    ensures forall i :: 0 <= i < |bs| ==> lo <= bs[i].addr && bs[i].End() <= hi && bs[i].Sound()
    ensures forall i, j :: 0 <= i < j < |bs| ==> bs[i].End() <= bs[j].addr
    ensures forall i :: 0 <= i < |bs| - 1 ==> bs[i].End() == bs[i + 1].addr
    ensures bs != [] ==> bs[|bs| - 1].End() == hi
    ensures lo % 4 == 0 ==> forall i :: 0 <= i < |bs| ==> bs[i].addr % 4 == 0
  {
    if bs != [] {
      var rest := bs[1..];
      TilesOrder(rest, bs[0].End(), hi);
      assert rest != [] ==> rest[0].addr == bs[0].End();
      forall i | 0 <= i < |bs|
        ensures lo <= bs[i].addr && bs[i].End() <= hi && bs[i].Sound() && (lo % 4 == 0 ==> bs[i].addr % 4 == 0)
      {
        if i > 0 { assert bs[i] == rest[i - 1]; }
      }
      forall i, j | 0 <= i < j < |bs|
        ensures bs[i].End() <= bs[j].addr
      {
        assert bs[j] == rest[j - 1];
        if i > 0 { assert bs[i] == rest[i - 1]; }
      }
      forall i | 0 <= i < |bs| - 1
        ensures bs[i].End() == bs[i + 1].addr
      {
        if i > 0 { assert rest[i - 1].End() == rest[i].addr; }
      }
    }
  }

  /** Replacing the blocks i..j of a tiling by another tiling of the same stretch. */
  lemma TilesSplice(bs: Layout, i: nat, j: nat, mid: Layout, lo: nat, hi: nat)
    requires Tiles(bs, lo, hi) && i < j <= |bs|
    requires Tiles(mid, bs[i].addr, bs[j - 1].End())
    ensures Tiles(bs[..i] + mid + bs[j..], lo, hi)
  {
    var m := TilesSplit(bs, i, lo, hi);
    var n := TilesSplit(bs, j, lo, hi);
    TilesConcat(bs[..i], mid, lo, m, n);
    TilesConcat(bs[..i] + mid, bs[j..], lo, n, hi);
  }

  // ----- The list as a view of the tiling

  /** The first linked block at or after i; |bs| if there is none. */
  function NextIndex(bs: Layout, i: nat): (r: nat)
    requires i <= |bs|
    ensures i <= r <= |bs|
    ensures r < |bs| ==> bs[r].Linked()
    ensures forall k :: i <= k < r ==> !bs[k].Linked()
    decreases |bs| - i
  {
    if i == |bs| || bs[i].Linked() then i else NextIndex(bs, i + 1)
  }

  /** The value of a list pointer: the address of the block with that index, or NULL. */
  function Pointer(bs: Layout, i: nat): nat
    requires i <= |bs|
  {
    if i == |bs| then 0 else bs[i].addr
  }

  function Next(bs: Layout, i: nat): nat
    requires i <= |bs|
  {
    Pointer(bs, NextIndex(bs, i))
  }

  /** The last linked block before i; -1 if there is none. */
  function PrevIndex(bs: Layout, i: nat): (r: int)
    requires i <= |bs|
    ensures -1 <= r < i
    ensures r >= 0 ==> bs[r].Linked()
    ensures forall k :: r < k < i ==> !bs[k].Linked()
  {
    if i == 0 then -1 else if bs[i - 1].Linked() then i - 1 else PrevIndex(bs, i - 1)
  }

  // ----- Abstract meaning: free bytes and live blocks

  function Bytes(b: Block): (s: set<nat>)
    ensures forall a: nat :: a in s <==> b.addr <= a < b.End()
  {
    set a: nat | b.addr <= a < b.End() && b.Holds(a)
  }

  function FreeBytes(bs: Layout): set<nat> {
    if bs == [] then {}
    else (if bs[0].kind.Free? then Bytes(bs[0]) else {}) + FreeBytes(bs[1..])
  }

  /** Handed-out blocks: address and size. */
  function Granted(bs: Layout): set<(nat, nat)> {
    if bs == [] then {}
    else (if bs[0].kind.Free? then {} else {(bs[0].addr, bs[0].size)}) + Granted(bs[1..])
  }

  lemma {:induction false} MeaningConcat(a: Layout, b: Layout)
    ensures FreeBytes(a + b) == FreeBytes(a) + FreeBytes(b)
    ensures Granted(a + b) == Granted(a) + Granted(b)
  {
    if a == [] {
      assert a + b == b;
    } else {
      MeaningConcat(a[1..], b);
      assert (a + b)[1..] == a[1..] + b;
    }
  }

  /** The bytes of different blocks are disjoint: what is free is not granted, and no two grants overlap. */
  lemma {:induction false} BytesDisjoint(bs: Layout, lo: nat, hi: nat)
    requires Tiles(bs, lo, hi)
    ensures forall a <- FreeBytes(bs) :: lo <= a < hi
    ensures forall k :: 0 <= k < |bs| && !bs[k].kind.Free? ==> Bytes(bs[k]) !! FreeBytes(bs)
    ensures forall i, j :: 0 <= i < j < |bs| ==> Bytes(bs[i]) !! Bytes(bs[j])
  {
    TilesOrder(bs, lo, hi);
    if bs != [] {
      BytesDisjoint(bs[1..], bs[0].End(), hi);
      forall k | 0 <= k < |bs| && !bs[k].kind.Free?
        ensures Bytes(bs[k]) !! FreeBytes(bs)
      {
        if k > 0 { assert bs[k] == bs[1..][k - 1]; }
      }
    }
  }

  // ----- The allocator's operations on tilings

  /** The first free block of at least `needed` bytes; |bs| if there is none. */
  function FirstFit(bs: Layout, needed: nat): (r: nat)
    ensures r <= |bs|
    ensures r < |bs| ==> bs[r].kind.Free? && bs[r].size >= needed
    ensures forall k :: 0 <= k < r ==> !(bs[k].kind.Free? && bs[k].size >= needed)
  {
    if bs == [] || (bs[0].kind.Free? && bs[0].size >= needed) then 0
    else
      var r := FirstFit(bs[1..], needed);
      assert forall k :: 0 < k < r + 1 ==> bs[k] == bs[1..][k - 1];
      r + 1
  }

  /** Hand out free block i: split off what is left when that makes a block, else grant it whole. */
  function Take(bs: Layout, i: nat, needed: nat): Layout
    requires i < |bs|
  {
    var b := bs[i];
    if b.size >= needed + MIN_BLOCK then
      bs[..i] + [Block(b.addr, needed, Live), Block(b.addr + needed, b.size - needed, Free)] + bs[i + 1..]
    else
      bs[..i] + [b.(kind := Live)] + bs[i + 1..]
  }

  /** Join free block i with the next block when that one is free as well. */
  function Coalesce(bs: Layout, i: nat): Layout
    requires i < |bs|
  {
    if i + 1 < |bs| && bs[i].kind.Free? && bs[i + 1].kind.Free? then
      bs[..i] + [Block(bs[i].addr, bs[i].size + bs[i + 1].size, Free)] + bs[i + 2..]
    else bs
  }

  function MarkFree(bs: Layout, i: nat): Layout
    requires i < |bs|
  {
    bs[..i] + [bs[i].(kind := Free)] + bs[i + 1..]
  }

  /** Give back block i: mark it free, then join it with its right and left neighbours. */
  function Release(bs: Layout, i: nat): Layout
    requires i < |bs|
  {
    var joined := Coalesce(MarkFree(bs, i), i);
    if i == 0 then joined else Coalesce(joined, i - 1)
  }

  /** One more page at the end of the heap. */
  function Grow(bs: Layout, limit: nat): Layout {
    bs + [Block(limit, PAGE_SIZE, Free)]
  }

  // ----- Every operation keeps the tiling

  lemma TakeTiles(bs: Layout, i: nat, needed: nat, hi: nat)
    requires Tiles(bs, HEAP_START, hi) && i < |bs|
    requires MIN_BLOCK <= needed <= bs[i].size && needed % 4 == 0
    ensures Tiles(Take(bs, i, needed), HEAP_START, hi)
  {
    var b := bs[i];
    assert b.Sound() by { TilesOrder(bs, HEAP_START, hi); }
    if b.size >= needed + MIN_BLOCK {
      var granted, rest := Block(b.addr, needed, Live), Block(b.addr + needed, b.size - needed, Free);
      PairTiles(granted, rest);
      TilesSplice(bs, i, i + 1, [granted, rest], HEAP_START, hi);
    } else {
      SingleTiles(b.(kind := Live));
      TilesSplice(bs, i, i + 1, [b.(kind := Live)], HEAP_START, hi);
    }
  }

  lemma SingleTiles(b: Block)
    requires b.Sound()
    ensures Tiles([b], b.addr, b.End())
  {
    assert [b][1..] == [];
  }

  lemma PairTiles(b: Block, c: Block)
    requires b.Sound() && c.Sound() && b.End() == c.addr
    ensures Tiles([b, c], b.addr, c.End())
  {
    assert [b, c][1..] == [c] && [c][1..] == [];
  }

  lemma CoalesceTiles(bs: Layout, i: nat, hi: nat)
    requires Tiles(bs, HEAP_START, hi) && i < |bs|
    ensures Tiles(Coalesce(bs, i), HEAP_START, hi)
  {
    TilesOrder(bs, HEAP_START, hi);
    if i + 1 < |bs| {
      var mid := [Block(bs[i].addr, bs[i].size + bs[i + 1].size, Free)];
      assert Tiles(mid[1..], bs[i + 1].End(), bs[i + 1].End());
      TilesSplice(bs, i, i + 2, mid, HEAP_START, hi);
    }
  }

  lemma MarkFreeTiles(bs: Layout, i: nat, hi: nat)
    requires Tiles(bs, HEAP_START, hi) && i < |bs|
    ensures Tiles(MarkFree(bs, i), HEAP_START, hi)
  {
    TilesOrder(bs, HEAP_START, hi);
    var mid := [bs[i].(kind := Free)];
    assert Tiles(mid[1..], bs[i].End(), bs[i].End());
    TilesSplice(bs, i, i + 1, mid, HEAP_START, hi);
  }

  lemma ReleaseTiles(bs: Layout, i: nat, hi: nat)
    requires Tiles(bs, HEAP_START, hi) && i < |bs|
    ensures Tiles(Release(bs, i), HEAP_START, hi)
  {
    MarkFreeTiles(bs, i, hi);
    CoalesceTiles(MarkFree(bs, i), i, hi);
    if i > 0 { CoalesceTiles(Coalesce(MarkFree(bs, i), i), i - 1, hi); }
  }

  // ----- What a grant and a release leave

  /** A grant starts where the free block did. What it does not need stays behind it as one free block
      up to the old end, exactly when that makes a block. All other blocks stay. */
  lemma TakeShape(bs: Layout, i: nat, needed: nat)
    requires i < |bs| && MIN_BLOCK <= needed <= bs[i].size
    ensures var r, split := Take(bs, i, needed), bs[i].size - needed >= MIN_BLOCK;
            && |r| == |bs| + (if split then 1 else 0)
            && r[..i] == bs[..i] && r[|r| - (|bs| - i - 1)..] == bs[i + 1..]
            && r[i].addr == bs[i].addr && r[i].kind.Live?
            && (!split ==> r[i].End() == bs[i].End())
            && (split ==> r[i].size == needed && r[i + 1].kind.Free? && r[i + 1].addr == r[i].End()
                          && r[i + 1].End() == bs[i].End())
  {
  }

  predicate FreeBefore(bs: Layout, i: nat) { 0 < i <= |bs| && bs[i - 1].kind.Free? }

  predicate FreeAfter(bs: Layout, i: nat) { i + 1 < |bs| && bs[i + 1].kind.Free? }

  /** The first and the last of block i and its free neighbours. */
  function JoinFirst(bs: Layout, i: nat): nat { if FreeBefore(bs, i) then i - 1 else i }

  function JoinLast(bs: Layout, i: nat): nat { if FreeAfter(bs, i) then i + 1 else i }

  /** r has one free block in place of block i of bs and its free neighbours: it starts where a free left
      neighbour started and ends where a free right neighbour ended. All other blocks are as in bs. */
  ghost predicate JoinedAt(bs: Layout, i: nat, r: Layout)
    requires i < |bs|
  {
    var first, last := JoinFirst(bs, i), JoinLast(bs, i);
    && first < |r| && r[..first] == bs[..first] && r[first + 1..] == bs[last + 1..]
    && r[first].kind.Free?
    && r[first].addr == (if FreeBefore(bs, i) then bs[i - 1].addr else bs[i].addr)
    && r[first].End() == (if FreeAfter(bs, i) then bs[i + 1].End() else bs[i].End())
  }

  lemma ReleaseShape(bs: Layout, i: nat, lo: nat, hi: nat)
    requires Tiles(bs, lo, hi) && i < |bs|
    ensures JoinedAt(bs, i, Release(bs, i))
  {
    var rest := bs[JoinLast(bs, i) + 1..];
    var joined := RightShape(bs, i, lo, hi);
    if i > 0 { joined := LeftShape(bs, i, joined, rest, lo, hi); }
    InPlace(bs[..JoinFirst(bs, i)], joined, rest);
  }

  lemma InPlace(a: Layout, b: Block, c: Layout)
    ensures (a + [b] + c)[..|a|] == a && (a + [b] + c)[|a|] == b && (a + [b] + c)[|a| + 1..] == c
  {
  }

  /** No free block lies right behind another one. */
  ghost predicate Merged(bs: Layout) {
    forall k :: 0 <= k < |bs| - 1 ==> !(bs[k].kind.Free? && bs[k + 1].kind.Free?)
  }

  /** A release leaves no free neighbours behind if there were none before. */
  lemma ReleaseMerged(bs: Layout, i: nat, lo: nat, hi: nat)
    requires Tiles(bs, lo, hi) && i < |bs| && Merged(bs)
    ensures Merged(Release(bs, i))
  {
    var r, first, last := Release(bs, i), JoinFirst(bs, i), JoinLast(bs, i);
    ReleaseShape(bs, i, lo, hi);
    forall k | 0 <= k < |r| - 1
      ensures !(r[k].kind.Free? && r[k + 1].kind.Free?)
    {
      if k < first { assert r[k] == r[..first][k] == bs[k]; }
      if k + 1 < first { assert r[k + 1] == r[..first][k + 1] == bs[k + 1]; }
      if k >= first { assert r[k + 1] == r[first + 1..][k - first] == bs[last + 1 + k - first]; }
      if k > first { assert r[k] == r[first + 1..][k - first - 1] == bs[last + k - first]; }
    }
  }

  /** So does a grant, whose remainder starts where the granted block ends. */
  lemma TakeMerged(bs: Layout, i: nat, needed: nat)
    requires i < |bs| && bs[i].kind.Free? && Merged(bs)
    ensures Merged(Take(bs, i, needed))
  {
    var r := Take(bs, i, needed);
    var d := |r| - |bs|;
    forall k | 0 <= k < |r| - 1
      ensures !(r[k].kind.Free? && r[k + 1].kind.Free?)
    {
      if k < i { assert r[k] == bs[k]; }
      if k + 1 < i { assert r[k + 1] == bs[k + 1]; }
      if k + 1 > i + d { assert r[k + 1] == bs[k + 1 - d]; }
      if k > i + d { assert r[k] == bs[k - d]; }
    }
  }

  /** A further page is not joined: it leaves free neighbours exactly when the heap ended in a free block. */
  lemma GrowMerged(bs: Layout, limit: nat)
    requires Merged(bs)
    ensures Merged(Grow(bs, limit)) <==> bs == [] || !bs[|bs| - 1].kind.Free?
  {
    var r := Grow(bs, limit);
    forall k | 0 <= k < |bs| - 1
      ensures !(r[k].kind.Free? && r[k + 1].kind.Free?)
    {
      assert r[k] == bs[k] && r[k + 1] == bs[k + 1];
    }
    if bs != [] { assert r[|bs| - 1] == bs[|bs| - 1] && r[|bs| - 1 + 1].kind.Free?; }
  }

  lemma RightShape(bs: Layout, i: nat, lo: nat, hi: nat) returns (joined: Block)
    requires Tiles(bs, lo, hi) && i < |bs|
    ensures Coalesce(MarkFree(bs, i), i) == bs[..i] + [joined] + bs[JoinLast(bs, i) + 1..]
    ensures joined.kind.Free? && joined.addr == bs[i].addr && joined.End() == bs[JoinLast(bs, i)].End()
  {
    var b, after := bs[i].(kind := Free), bs[i + 1..];
    if FreeAfter(bs, i) {
      assert bs[i].End() == bs[i + 1].addr by { TilesOrder(bs, lo, hi); }
      joined := b.(size := b.size + bs[i + 1].size);
      assert after[1..] == bs[i + 2..];
    } else {
      joined := b;
    }
    JoinAfter(bs[..i], b, after);
  }

  lemma LeftShape(bs: Layout, i: nat, next: Block, rest: Layout, lo: nat, hi: nat) returns (joined: Block)
    requires Tiles(bs, lo, hi) && 0 < i < |bs| && next.kind.Free? && next.addr == bs[i].addr
    ensures Coalesce(bs[..i] + [next] + rest, i - 1) == bs[..JoinFirst(bs, i)] + [joined] + rest
    ensures joined.kind.Free? && joined.addr == bs[JoinFirst(bs, i)].addr && joined.End() == next.End()
  {
    var a, left, after := bs[..i - 1], bs[i - 1], [next] + rest;
    assert left.End() == bs[i - 1 + 1].addr by { TilesOrder(bs, lo, hi); }
    joined := if left.kind.Free? then left.(size := left.size + next.size) else next;
    var was := bs[..i] + [next] + rest;
    assert was == a + [left] + after by {
      assert bs[..i] == a + [left];
      Regroup(a + [left], [next], rest);
    }
    assert Coalesce(was, |a|) == if left.kind.Free? then a + [joined] + rest else was by {
      JoinAfter(a, left, after);
      assert after[1..] == rest;
    }
  }

  lemma Regroup(a: Layout, b: Layout, c: Layout)
    ensures a + b + c == a + (b + c)
  {
  }

  /** Joining at the block b between two stretches. */
  lemma JoinAfter(a: Layout, b: Block, c: Layout)
    ensures Coalesce(a + [b] + c, |a|) ==
            if b.kind.Free? && c != [] && c[0].kind.Free? then a + [Block(b.addr, b.size + c[0].size, Free)] + c[1..]
            else a + [b] + c
  {
    var bs := a + [b] + c;
    assert bs[|a|] == b && bs[..|a|] == a;
    assert c != [] ==> bs[|a| + 1] == c[0] && bs[|a| + 2..] == c[1..];
  }

  /** Appending one block, free or spanning pages, that starts where the tiling ends. */
  lemma AppendTiles(bs: Layout, b: Block, hi: nat)
    requires Tiles(bs, HEAP_START, hi) && b.addr == hi && b.Sound()
    ensures Tiles(bs + [b], HEAP_START, b.End())
  {
    assert Tiles([b][1..], b.End(), b.End());
    TilesConcat(bs, [b], HEAP_START, hi, b.End());
  }

  // ----- Refinement of the byte-set allocator

  lemma SingleMeaning(b: Block)
    ensures FreeBytes([b]) == if b.kind.Free? then Bytes(b) else {}
    ensures Granted([b]) == if b.kind.Free? then {} else {(b.addr, b.size)}
  {
    assert [b][1..] == [];
  }

  lemma PairMeaning(b: Block, c: Block)
    ensures FreeBytes([b, c]) == FreeBytes([b]) + FreeBytes([c])
    ensures Granted([b, c]) == Granted([b]) + Granted([c])
  {
    MeaningConcat([b], [c]);
    assert [b] + [c] == [b, c];
  }

  lemma Rejoin(bs: Layout, i: nat, j: nat)
    requires i <= j <= |bs|
    ensures bs[..i] + bs[i..j] + bs[j..] == bs
  {
    assert bs[..i] + bs[i..j] == bs[..j];
  }

  /** Replacing a stretch of blocks replaces its contribution; the rest, f and g, stays. */
  lemma SpliceMeaning(bs: Layout, i: nat, j: nat, mid: Layout) returns (f: set<nat>, g: set<(nat, nat)>)
    requires i <= j <= |bs|
    ensures FreeBytes(bs) == f + FreeBytes(bs[i..j])
    ensures FreeBytes(bs[..i] + mid + bs[j..]) == f + FreeBytes(mid)
    ensures Granted(bs) == g + Granted(bs[i..j])
    ensures Granted(bs[..i] + mid + bs[j..]) == g + Granted(mid)
  {
    Meaning3(bs[..i], mid, bs[j..]);
    Meaning3(bs[..i], bs[i..j], bs[j..]);
    Rejoin(bs, i, j);
    f := FreeBytes(bs[..i]) + FreeBytes(bs[j..]);
    g := Granted(bs[..i]) + Granted(bs[j..]);
  }

  /** Splitting, or granting whole, moves exactly the granted block's bytes out of the free set. */
  lemma TakeMeaning(bs: Layout, i: nat, needed: nat, hi: nat)
    requires Tiles(bs, HEAP_START, hi) && i < |bs| && bs[i].kind.Free?
    requires MIN_BLOCK <= needed <= bs[i].size && needed % 4 == 0
    ensures var r := Take(bs, i, needed);
            && r[i].addr == bs[i].addr && r[i].kind.Live? && needed <= r[i].size < needed + MIN_BLOCK
            && FreeBytes(bs) == FreeBytes(r) + Bytes(r[i]) && Bytes(r[i]) !! FreeBytes(r)
            && Granted(r) == Granted(bs) + {(r[i].addr, r[i].size)}
  {
    var r := Take(bs, i, needed);
    TakeTiles(bs, i, needed, hi);
    assert Bytes(r[i]) !! FreeBytes(r) by { BytesDisjoint(r, HEAP_START, hi); }
    var b := bs[i];
    if b.size >= needed + MIN_BLOCK {
      var granted, rest := Block(b.addr, needed, Live), Block(b.addr + needed, b.size - needed, Free);
      HalvesMeaning(b, granted, rest);
      ReplaceMeaning(bs, i, [granted, rest], granted);
    } else {
      SingleMeaning(b);
      SingleMeaning(b.(kind := Live));
      ReplaceMeaning(bs, i, [b.(kind := Live)], b.(kind := Live));
    }
  }

  lemma HalvesMeaning(b: Block, granted: Block, rest: Block)
    requires b.kind.Free? && granted.kind.Live? && rest.kind.Free?
    requires b.addr == granted.addr && granted.End() == rest.addr && rest.End() == b.End()
    ensures FreeBytes([b]) == FreeBytes([granted, rest]) + Bytes(granted)
    ensures Granted([b]) == {} && Granted([granted, rest]) == {(granted.addr, granted.size)}
  {
    PairMeaning(granted, rest);
    SingleMeaning(b);
    SingleMeaning(granted);
    SingleMeaning(rest);
    assert Bytes(b) == Bytes(granted) + Bytes(rest);
  }

  lemma ReplaceMeaning(bs: Layout, i: nat, mid: Layout, granted: Block)
    requires i < |bs|
    requires FreeBytes([bs[i]]) == FreeBytes(mid) + Bytes(granted)
    requires Granted([bs[i]]) == {} && Granted(mid) == {(granted.addr, granted.size)}
    ensures var r := bs[..i] + mid + bs[i + 1..];
            && FreeBytes(bs) == FreeBytes(r) + Bytes(granted)
            && Granted(r) == Granted(bs) + {(granted.addr, granted.size)}
  {
    var f, g := SpliceMeaning(bs, i, i + 1, mid);
    assert bs[i..i + 1] == [bs[i]];
  }

  lemma Meaning3(a: Layout, b: Layout, c: Layout)
    ensures FreeBytes(a + b + c) == FreeBytes(a) + FreeBytes(c) + FreeBytes(b)
    ensures Granted(a + b + c) == Granted(a) + Granted(c) + Granted(b)
  {
    MeaningConcat(a, b);
    MeaningConcat(a + b, c);
  }

  /** Joining neighbours changes neither the free bytes nor the grants. */
  lemma CoalesceMeaning(bs: Layout, i: nat, hi: nat)
    requires Tiles(bs, HEAP_START, hi) && i < |bs|
    ensures FreeBytes(Coalesce(bs, i)) == FreeBytes(bs)
    ensures Granted(Coalesce(bs, i)) == Granted(bs)
  {
    if i + 1 < |bs| && bs[i].kind.Free? && bs[i + 1].kind.Free? {
      TilesOrder(bs, HEAP_START, hi);
      var joined := Block(bs[i].addr, bs[i].size + bs[i + 1].size, Free);
      JoinedMeaning(bs[i], bs[i + 1], joined);
      assert bs[i..i + 2] == [bs[i], bs[i + 1]];
      var f, g := SpliceMeaning(bs, i, i + 2, [joined]);
    }
  }

  lemma JoinedMeaning(b: Block, c: Block, joined: Block)
    requires b.kind.Free? && c.kind.Free? && joined.kind.Free?
    requires joined.addr == b.addr && b.End() == c.addr && c.End() == joined.End()
    ensures FreeBytes([b, c]) == FreeBytes([joined]) && Granted([b, c]) == Granted([joined])
  {
    PairMeaning(b, c);
    SingleMeaning(b);
    SingleMeaning(c);
    SingleMeaning(joined);
    assert Bytes(joined) == Bytes(b) + Bytes(c);
  }

  lemma {:induction false} GrantedBounds(bs: Layout, lo: nat, hi: nat)
    requires Tiles(bs, lo, hi)
    ensures forall g <- Granted(bs) :: lo <= g.0 < hi
    ensures forall k :: 0 <= k < |bs| && !bs[k].kind.Free? ==> (bs[k].addr, bs[k].size) in Granted(bs)
  {
    if bs != [] {
      TilesOrder(bs, lo, hi);
      GrantedBounds(bs[1..], bs[0].End(), hi);
      forall k | 0 < k < |bs| && !bs[k].kind.Free?
        ensures (bs[k].addr, bs[k].size) in Granted(bs)
      {
        assert bs[k] == bs[1..][k - 1];
      }
    }
  }

  /** Two-sided coalescing adds exactly the freed block's bytes, none lost and none twice, and drops
      exactly its grant. */
  lemma ReleaseMeaning(bs: Layout, i: nat, hi: nat)
    requires Tiles(bs, HEAP_START, hi) && i < |bs| && bs[i].kind.Live?
    ensures var r := Release(bs, i);
            && FreeBytes(r) == FreeBytes(bs) + Bytes(bs[i]) && Bytes(bs[i]) !! FreeBytes(bs)
            && Granted(bs) == Granted(r) + {(bs[i].addr, bs[i].size)}
            && (bs[i].addr, bs[i].size) !in Granted(r)
  {
    var m := MarkFree(bs, i);
    assert Bytes(bs[i]) !! FreeBytes(bs) by { BytesDisjoint(bs, HEAP_START, hi); }
    MarkFreeMeaning(bs, i, hi);
    MarkFreeTiles(bs, i, hi);
    CoalesceTiles(m, i, hi);
    CoalesceMeaning(m, i, hi);
    if i > 0 { CoalesceMeaning(Coalesce(m, i), i - 1, hi); }
  }

  lemma MarkFreeMeaning(bs: Layout, i: nat, hi: nat)
    requires Tiles(bs, HEAP_START, hi) && i < |bs| && bs[i].kind.Live?
    ensures var r := MarkFree(bs, i);
            && FreeBytes(r) == FreeBytes(bs) + Bytes(bs[i])
            && Granted(bs) == Granted(r) + {(bs[i].addr, bs[i].size)}
            && (bs[i].addr, bs[i].size) !in Granted(r)
  {
    var f, g := SpliceMeaning(bs, i, i + 1, [bs[i].(kind := Free)]);
    assert bs[i..i + 1] == [bs[i]];
    SingleMeaning(bs[i]);
    SingleMeaning(bs[i].(kind := Free));
    MarkFreeTiles(bs, i, hi);
    GrantedAt(MarkFree(bs, i), HEAP_START, hi, i);
  }

  /** A free block's address is not the address of any grant. */
  lemma {:induction false} GrantedAt(bs: Layout, lo: nat, hi: nat, i: nat)
    requires Tiles(bs, lo, hi) && i < |bs| && bs[i].kind.Free?
    ensures forall g <- Granted(bs) :: g.0 != bs[i].addr
  {
    TilesOrder(bs, lo, hi);
    GrantedBounds(bs[1..], bs[0].End(), hi);
    if i > 0 { GrantedAt(bs[1..], bs[0].End(), hi, i - 1); }
  }

  lemma AppendMeaning(bs: Layout, b: Block)
    ensures FreeBytes(bs + [b]) == FreeBytes(bs) + if b.kind.Free? then Bytes(b) else {}
    ensures Granted(bs + [b]) == Granted(bs) + if b.kind.Free? then {} else {(b.addr, b.size)}
  {
    MeaningConcat(bs, [b]);
    SingleMeaning(b);
  }
}
