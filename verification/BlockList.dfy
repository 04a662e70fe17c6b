/** The pointer code of the heap: list walks and the stores that split, unlink, insert and join
    blocks, each proved to be one step on the tiling that memory represents. */
module BlockList {
  import opened Words
  import opened HeapLayout
  import opened HeapMemory

  /** The block before the one a walk stands on; 0 at the start of the list. */
  function PrevPointer(bs: Layout, i: nat): nat
    requires i <= |bs|
  {
    var p := PrevIndex(bs, i);
    if p < 0 then 0 else bs[p].addr
  }

  lemma PrevOfNext(bs: Layout, i: nat)
    requires i < |bs| && bs[i].Linked()
    ensures PrevIndex(bs, NextIndex(bs, i + 1)) == i
  {
    PrevIs(bs, NextIndex(bs, i + 1), i);
  }

  lemma PrevIs(bs: Layout, i: nat, p: int)
    requires i <= |bs| && -1 <= p < i
    requires p >= 0 ==> bs[p].Linked()
    requires forall k :: p < k < i ==> !bs[k].Linked()
    ensures PrevIndex(bs, i) == p
  {
  }

  /** block_used and block_size on a length word. */
  predicate BlockUsed(len: nat) { len % 2 == 1 }

  function BlockSize(len: nat): nat { len - len % 2 }

  lemma LenFields(b: Block)
    requires b.Sound()
    ensures BlockUsed(LenWord(b)) == !b.kind.Free? && BlockSize(LenWord(b)) == b.size
  {
  }

  lemma LenOf(m: seq<nat>, head: nat, bs: Layout, hi: nat, i: nat)
    requires |m| == MEMORY && Placed(bs, hi) && Represents(m, head, bs) && i < |bs|
    ensures bs[i].addr < MEMORY && BlockSize(m[bs[i].addr]) == bs[i].size
  {
    assert Stored(m, bs, i);
    assert bs[i].Sound() by { TilesOrder(bs, HEAP_START, hi); }
    LenFields(bs[i]);
  }

  /** Reading one list node: its length word and its link. */
  lemma WalkStep(m: seq<nat>, head: nat, bs: Layout, hi: nat, i: nat)
    requires |m| == MEMORY && Placed(bs, hi) && Represents(m, head, bs)
    requires i < |bs| && bs[i].Linked()
    ensures var (b, j) := (bs[i], NextIndex(bs, i + 1));
            && 0 < b.addr && b.addr + 4 < MEMORY
            && BlockUsed(m[b.addr]) == !b.kind.Free? && BlockSize(m[b.addr]) == b.size
            && m[b.addr + 4] == Pointer(bs, j) && PrevPointer(bs, j) == b.addr
            && i < j && (j < |bs| ==> bs[j].Linked()) && forall k :: i < k < j ==> bs[k].kind.Live?
  {
    assert Stored(m, bs, i);
    TilesOrder(bs, HEAP_START, hi);
    LenFields(bs[i]);
    PrevOfNext(bs, i);
  }

  lemma WalkStart(m: seq<nat>, head: nat, bs: Layout, hi: nat)
    requires |m| == MEMORY && Placed(bs, hi) && Represents(m, head, bs)
    ensures var j := NextIndex(bs, 0);
            && head == Pointer(bs, j) && PrevPointer(bs, j) == 0
            && (j < |bs| ==> bs[j].Linked()) && forall k :: 0 <= k < j ==> bs[k].kind.Live?
    ensures forall k :: 0 <= k < |bs| ==> bs[k].addr > 0
  {
    PrevIs(bs, NextIndex(bs, 0), -1);
    TilesOrder(bs, HEAP_START, hi);
  }

  // ----- What other holders of memory see

  ghost predicate SamePayload(m: seq<nat>, n: seq<nat>, b: Block) {
    |m| == |n| && forall w :: b.addr + HEADER <= w < b.End() && w < |m| ==> n[w] == m[w]
  }

  /** Every handed-out block except x keeps its payload, and no word outside the heap changes. */
  ghost predicate Keeps(m: seq<nat>, n: seq<nat>, bs: Layout, x: Option<Block>, hi: nat) {
    && |m| == |n|
    && (forall b <- bs :: !b.kind.Free? && x != Some(b) ==> SamePayload(m, n, b))
    && (forall w :: 0 <= w < |m| && !(HEAP_START <= w < hi) ==> n[w] == m[w])
  }

  /** An operation that rewrites only the stretch of b and one pointer keeps every other payload. */
  lemma RewrittenKeeps(m: seq<nat>, head: nat, bs: Layout, i: nat, b: Block, n: seq<nat>, head': nat,
                       target: nat, len: nat, x: Option<Block>, hi: nat, hi': nat)
    requires |m| == MEMORY && Placed(bs, hi) && hi <= hi' && i <= |bs|
    requires Rewritten(m, head, bs, i, b, n, head', target, len)
    requires StartOf(bs, i, hi) <= b.addr && b.End() <= hi'
    requires forall c <- bs :: !c.kind.Free? && x != Some(c) ==> c.End() <= b.addr || b.End() <= c.addr
    ensures Keeps(m, n, bs, x, hi')
  {
    TilesOrder(bs, HEAP_START, hi);
    var p := PrevIndex(bs, i);
    forall c <- bs | !c.kind.Free? && x != Some(c)
      ensures SamePayload(m, n, c)
    {
      var k :| 0 <= k < |bs| && bs[k] == c;
      forall w | c.addr + HEADER <= w < c.End() && w < |m|
        ensures n[w] == m[w]
      {
        assert p >= 0 ==> k < p || k == p || k > p;
        assert Elsewhere(bs, i, b.addr, b.End(), w);
      }
    }
    forall w | 0 <= w < |m| && !(HEAP_START <= w < hi')
      ensures n[w] == m[w]
    {
      assert Elsewhere(bs, i, b.addr, b.End(), w);
    }
  }

  class List {
    const mem: array<u32>     // the word at byte address a is mem[a]
    var head: nat             // kernel_block_list
    ghost var blocks: Layout
    ghost var hi: nat         // where the tiling ends

    ghost predicate Ok()
      reads this, mem
    {
      mem.Length == MEMORY && Placed(blocks, hi) && Represents(mem[..], head, blocks)
    }

    constructor ()
      ensures Ok() && blocks == [] && hi == HEAP_START && fresh(mem)
    {
      mem := new u32[MEMORY];
      head, blocks, hi := 0, [], HEAP_START;
    }

    /** find_prev_for_size: the first free block that is large enough, and the list node before it. */
    method FindPrevForSize(needed: nat) returns (prev: nat, cur: nat)
      requires Ok()
      ensures var i := FirstFit(blocks, needed);
              cur == Pointer(blocks, i) && (i < |blocks| ==> prev == PrevPointer(blocks, i))
    {
      ghost var m, h, bs := mem[..], head, blocks;
      WalkStart(m, h, bs, hi);
      ghost var i := NextIndex(bs, 0);
      prev, cur := 0, head;
      while cur != 0
        invariant i <= |bs| && (i < |bs| ==> bs[i].Linked())
        invariant cur == Pointer(bs, i) && prev == PrevPointer(bs, i)
        invariant forall k :: 0 <= k < i ==> !(bs[k].kind.Free? && bs[k].size >= needed)
        decreases |bs| - i
      {
        WalkStep(m, h, bs, hi, i);
        if !BlockUsed(mem[cur]) && BlockSize(mem[cur]) >= needed {
          FirstFitIs(bs, needed, i);
          return;
        }
        prev, cur := cur, mem[cur + 4];
        i := NextIndex(bs, i + 1);
      }
      FirstFitIs(bs, needed, |bs|);
    }

    /** The walk `while (cur && cur < block)` of add_block and kfree: it stops at the first linked
        block at or after index i. */
    method WalkTo(block: nat, ghost i: nat) returns (prev: nat, cur: nat)
      requires Ok() && i <= |blocks|
      requires block == StartOf(blocks, i, hi)
      ensures cur == Next(blocks, i) < WORD && prev == PrevPointer(blocks, i)
    {
      ghost var m, h, bs := mem[..], head, blocks;
      WalkStart(m, h, bs, hi);
      ghost var k := NextIndex(bs, 0);
      prev, cur := 0, head;
      while cur != 0 && cur < block
        invariant k <= |bs| && (k < |bs| ==> bs[k].Linked())
        invariant cur == Pointer(bs, k) && prev == PrevPointer(bs, k)
        invariant PrevIndex(bs, k) < i
        decreases |bs| - k
      {
        WalkStep(m, h, bs, hi, k);
        BelowStart(bs, hi, k, i);
        PrevOfNext(bs, k);
        prev, cur := cur, mem[cur + 4];
        k := NextIndex(bs, k + 1);
      }
      if k < |bs| {
        BelowStart(bs, hi, k, i);
        WalkStep(m, h, bs, hi, k);
      }
      PrevIs(bs, i, PrevIndex(bs, k));
      NextIs(bs, i, k);
    }

    /** `if (prev) prev->next = target; else kernel_block_list = target;` */
    method Redirect(prev: nat, target: u32, ghost bs: Layout, ghost i: nat)
      requires mem.Length == MEMORY && Placed(bs, hi) && i <= |bs| && prev == PrevPointer(bs, i)
      modifies this`head, mem
      ensures (mem[..], head) == HeapMemory.Redirect(old(mem[..]), old(head), bs, i, target)
    {
      PrevBefore(bs, i, hi);
      TilesOrder(bs, HEAP_START, hi);
      if prev != 0 {
        mem[prev + 4] := target;
      } else {
        head := target;
      }
    }

    /** The second half of kmalloc: split the found block, or unlink it whole. */
    method Grant(prev: nat, block: nat, needed: nat, ghost i: nat)
      requires Ok() && i < |blocks| && blocks[i].kind.Free? && block == blocks[i].addr
      requires prev == PrevPointer(blocks, i)
      requires MIN_BLOCK <= needed <= blocks[i].size && needed % 4 == 0
      modifies this, mem
      ensures Ok() && hi == old(hi) && blocks == Take(old(blocks), i, needed)
      ensures Keeps(old(mem[..]), mem[..], old(blocks), None, hi)
    {
      ghost var m, h, bs := mem[..], head, blocks;
      WalkStep(m, h, bs, hi, i);
      InHeap(bs, hi, i);
      var size := BlockSize(mem[block]);
      if size >= needed + MIN_BLOCK {
        Split(prev, block, needed, size, i);
      } else {
        GrantWhole(prev, block, needed, size, i);
      }
    }

    /** Too little would be left for a block: the list skips the block and all of it is granted. */
    method GrantWhole(prev: nat, block: nat, needed: nat, size: nat, ghost i: nat)
      requires Ok() && i < |blocks| && blocks[i].kind.Free? && block == blocks[i].addr && size == blocks[i].size
      requires prev == PrevPointer(blocks, i)
      requires MIN_BLOCK <= needed <= size < needed + MIN_BLOCK && needed % 4 == 0
      modifies this, mem
      ensures Ok() && hi == old(hi) && blocks == Take(old(blocks), i, needed)
      ensures Keeps(old(mem[..]), mem[..], old(blocks), None, hi)
    {
      ghost var m, h, bs := mem[..], head, blocks;
      InHeap(bs, hi, i);
      Redirect(prev, mem[block + 4], bs, i);
      mem[block] := size + 1;
      assert (mem[..], head) == WholeStores(m, h, bs, i);
      WholeWords(m, h, bs, i, hi);
      WholeRepresents(m, h, bs, i, needed, mem[..], head, hi);
      RewrittenKeeps(m, h, bs, i, bs[i], mem[..], head, Load(m, bs[i].addr + 4), size + 1, None, hi, hi);
      blocks := Take(bs, i, needed);
      TakeTiles(bs, i, needed, hi);
    }

    method Split(prev: nat, block: nat, needed: nat, size: nat, ghost i: nat)
      requires Ok() && i < |blocks| && blocks[i].kind.Free? && block == blocks[i].addr && size == blocks[i].size
      requires prev == PrevPointer(blocks, i)
      requires MIN_BLOCK <= needed && needed + MIN_BLOCK <= size && needed % 4 == 0
      modifies this, mem
      ensures Ok() && hi == old(hi) && blocks == Take(old(blocks), i, needed)
      ensures Keeps(old(mem[..]), mem[..], old(blocks), None, hi)
    {
      ghost var m, h, bs := mem[..], head, blocks;
      InHeap(bs, hi, i);
      var rest := block + needed;
      mem[rest] := size - needed;
      mem[rest + 4] := mem[block + 4];
      Redirect(prev, rest, bs, i);
      mem[block] := needed + 1;
      assert (mem[..], head) == SplitStores(m, h, bs, i, needed);
      SplitWords(m, h, bs, i, needed, hi);
      SplitRepresents(m, h, bs, i, needed, mem[..], head, hi);
      RewrittenKeeps(m, h, bs, i, bs[i], mem[..], head, rest, needed + 1, None, hi, hi);
      blocks := Take(bs, i, needed);
      TakeTiles(bs, i, needed, hi);
    }

    /** add_block, for a block that starts where the heap ends. The walk is done before the store of
        the length word, which it does not read. */
    method AddBlock(addr: nat, len: nat)
      requires Ok() && addr == hi && len % 4 == 0 && addr + len <= HEAP_END
      modifies this, mem
      ensures Ok()
      ensures if len < MIN_BLOCK then hi == old(hi) && blocks == old(blocks)
              else hi == old(hi) + len && blocks == old(blocks) + [Block(addr, len, Free)]
      ensures Keeps(old(mem[..]), mem[..], old(blocks), None, hi)
    {
      if len < MIN_BLOCK { return; }
      ghost var m, h, bs := mem[..], head, blocks;
      assert hi % 4 == 0 && HEAP_START <= hi && forall c <- bs :: c.End() <= hi by { TilesOrder(bs, HEAP_START, hi); }
      var prev, cur := WalkTo(addr, |bs|);
      AlignedLength(len);
      mem[addr] := BlockSize(Align4(len));
      mem[addr + 4] := cur;
      Redirect(prev, addr, bs, |bs|);
      ghost var b := Block(addr, len, Free);
      assert (mem[..], head) == AppendStores(m, h, bs, b);
      AppendWords(m, h, bs, b, hi);
      AppendRepresents(m, h, bs, b, mem[..], head, hi);
      assert Keeps(m, mem[..], bs, None, b.End()) by {
        RewrittenKeeps(m, h, bs, |bs|, b, mem[..], head, hi, LenWord(b), None, hi, b.End());
      }
      AppendTiles(bs, b, hi);
      blocks := bs + [b];
      hi := b.End();
    }

    /** The end of a multi-page kmalloc: the first of the new pages becomes the header of them all,
        marked used and last on the list. */
    method MakeSpan(base: nat, total: nat, ghost i: nat)
      requires Ok() && i < |blocks| && base == blocks[i].addr && base + total == hi
      requires forall k :: i <= k < |blocks| ==> blocks[k].kind.Free?
      modifies this, mem
      ensures Ok() && hi == old(hi)
      ensures blocks == old(blocks)[..i] + [Block(base, total, Span)]
      ensures Keeps(old(mem[..]), mem[..], old(blocks), None, hi)
    {
      ghost var m, h, bs := mem[..], head, blocks;
      ghost var b := Block(base, total, Span);
      InHeap(bs, hi, i);
      SpanSound(bs, i, hi);
      mem[base] := total + 1;
      mem[base + 4] := 0;
      assert mem[..] == Store(Store(m, base, total + 1), base + 4, 0);
      HeaderWords(m, h, bs, i, b, total + 1, 0, hi);
      SpanRepresents(m, h, bs, i, mem[..], hi);
      assert Keeps(m, mem[..], bs, None, hi) by {
        SpanApart(bs, hi, i);
        RewrittenKeeps(m, h, bs, i, b, mem[..], head, PointerTo(m, h, bs, i), total + 1, None, hi, hi);
      }
      blocks := SpanFrom(bs, i, hi);
      SpanTiles(bs, i, hi);
    }

    /** kfree: unmark the block, link it in address order, then join it with a free right neighbour
        and a free left neighbour. Afterwards memory holds a heap exactly when the block came from a
        single-page request; a multi-page block leaves a list that runs into a loop. */
    method Kfree(ptr: nat, ghost i: nat)
      requires Ok() && i < |blocks| && !blocks[i].kind.Free? && ptr == blocks[i].addr + HEADER
      modifies this, mem
      ensures old(blocks[i].kind.Live?) ==>
                && Ok() && hi == old(hi) && blocks == Release(old(blocks), i) && JoinedAt(old(blocks), i, blocks)
                && Keeps(old(mem[..]), mem[..], old(blocks), Some(old(blocks[i])), hi)
      ensures HoldsList(mem[..], head) <==> old(blocks[i].kind.Live?)
    {
      ghost var m, bs, live := mem[..], blocks, blocks[i].kind.Live?;
      var block := ptr - HEADER;
      var prev := Insert(block, i);
      ghost var m1, bs1 := mem[..], blocks;
      if live {
        MarkFreeMembers(bs, i);
        PrevIndexLocal(bs1, Coalesce(bs1, i), i);
      }
      MergeNext(block, i, live);
      ghost var m2, bs2 := mem[..], blocks;
      MergePrev(prev, block, i, live);
      if live {
        CoalesceMembers(bs1, i);
        KeepsTrans(m, m1, m2, bs, bs1, Some(bs[i]), hi);
        KeepsTrans(m, m2, mem[..], bs, bs2, Some(bs[i]), hi);
        ReleaseShape(bs, i, HEAP_START, hi);
      } else {
        LoopHoldsNothing(mem[..], head, blocks, i, hi);
      }
    }

    /** The insertion walk and its stores. */
    method Insert(block: nat, ghost i: nat) returns (prev: nat)
      requires Ok() && i < |blocks| && !blocks[i].kind.Free? && block == blocks[i].addr
      modifies this, mem
      ensures hi == old(hi) && i < |blocks| && prev == PrevPointer(blocks, i)
      ensures old(blocks[i].kind.Live?) ==>
                && Ok() && blocks == MarkFree(old(blocks), i)
                && Keeps(old(mem[..]), mem[..], old(blocks), Some(old(blocks[i])), hi)
      ensures old(blocks[i].kind.Span?) ==> blocks == old(blocks) && Looped(mem[..], head, blocks, i, hi)
    {
      ghost var m, h, bs := mem[..], head, blocks;
      InHeap(bs, hi, i);
      var cur;
      prev, cur := WalkTo(block, i);
      LenOf(m, h, bs, hi, i);
      mem[block] := BlockSize(mem[block]);
      mem[block + 4] := cur;
      Redirect(prev, block, bs, i);
      assert (mem[..], head) == FreeStores(m, h, bs, i);
      if bs[i].kind.Live? {
        InsertKeeps(m, h, bs, i, hi);
        blocks := MarkFree(bs, i);
        PrevIndexLocal(bs, blocks, i);
      } else {
        FreeLoops(m, h, bs, i, hi);
      }
    }

    /** A right neighbour that is linked, free and adjacent is joined. A block that links to itself is not
        its own neighbour. */
    method MergeNext(block: nat, ghost i: nat, ghost live: bool)
      requires i < |blocks| && block == blocks[i].addr
      requires if live then Ok() && blocks[i].kind.Free?
               else mem.Length == MEMORY && Looped(mem[..], head, blocks, i, hi)
      modifies this, mem
      ensures hi == old(hi)
      ensures live ==>
                && Ok() && blocks == Coalesce(old(blocks), i)
                && Keeps(old(mem[..]), mem[..], old(blocks), None, hi)
      ensures !live ==> blocks == old(blocks) && Looped(mem[..], head, blocks, i, hi)
    {
      ghost var m, h, bs := mem[..], head, blocks;
      if live { FreeRight(m, h, bs, i, hi); } else { LoopRight(m, h, bs, i, hi); }
      var next := mem[block + 4];
      if next != 0 && !BlockUsed(mem[next]) && block + BlockSize(mem[block]) == next {
        Join(block, next);
        JoinKeeps(m, h, bs, i, hi);
        blocks := Coalesce(bs, i);
      }
    }

    /** A left neighbour that is free and adjacent is joined. It takes over the block's link, so a loop
        stays a loop. */
    method MergePrev(prev: nat, block: nat, ghost i: nat, ghost live: bool)
      requires i < |blocks| && block == blocks[i].addr && prev == PrevPointer(blocks, i)
      requires if live then Ok() && blocks[i].kind.Free?
               else mem.Length == MEMORY && Looped(mem[..], head, blocks, i, hi)
      modifies this, mem
      ensures hi == old(hi)
      ensures live ==>
                && Ok() && blocks == (if i == 0 then old(blocks) else Coalesce(old(blocks), i - 1))
                && Keeps(old(mem[..]), mem[..], old(blocks), None, hi)
      ensures !live ==> blocks == old(blocks) && Looped(mem[..], head, blocks, i, hi)
    {
      ghost var m, h, bs := mem[..], head, blocks;
      if live { FreeLeft(m, h, bs, i, hi); } else { LoopLeft(m, h, bs, i, hi); }
      if prev != 0 && !BlockUsed(mem[prev]) && prev + BlockSize(mem[prev]) == block {
        Join(prev, block);
        if live {
          JoinKeeps(m, h, bs, i - 1, hi);
          blocks := Coalesce(bs, i - 1);
        } else {
          JoinLoops(m, h, bs, i, hi);
        }
      }
    }

    /** The stores that make a block swallow the next one. */
    method Join(left: nat, right: nat)
      requires mem.Length == MEMORY && left < right && right + 4 < MEMORY
      requires BlockSize(mem[left]) + BlockSize(mem[right]) < WORD
      modifies mem
      ensures mem[..] == JoinStores(old(mem[..]), left, right)
    {
      mem[left] := BlockSize(mem[left]) + BlockSize(mem[right]);
      mem[left + 4] := mem[right + 4];
    }
  }

  /** The test of kfree for a right neighbour to join. */
  predicate JoinsRight(m: seq<nat>, block: nat, next: nat) {
    next != 0 && !BlockUsed(Load(m, next)) && block + BlockSize(Load(m, block)) == next
  }

  /** In a list that test finds exactly the free block right after. */
  lemma FreeRight(m: seq<nat>, h: nat, bs: Layout, i: nat, hi: nat)
    requires |m| == MEMORY && Placed(bs, hi) && Represents(m, h, bs) && i < |bs| && bs[i].kind.Free?
    ensures bs[i].addr + 4 < MEMORY && m[bs[i].addr + 4] < MEMORY - 4
    ensures JoinsRight(m, bs[i].addr, m[bs[i].addr + 4]) <==> i + 1 < |bs| && bs[i + 1].kind.Free?
    ensures i + 1 < |bs| && bs[i + 1].kind.Free? ==>
              && m[bs[i].addr + 4] == bs[i + 1].addr > bs[i].addr
              && BlockSize(Load(m, bs[i].addr)) + BlockSize(Load(m, bs[i + 1].addr)) < WORD
  {
    var j := NextIndex(bs, i + 1);
    InHeap(bs, hi, i);
    WalkStep(m, h, bs, hi, i);
    if j < |bs| {
      InHeap(bs, hi, j);
      WalkStep(m, h, bs, hi, j);
    }
    Adjacent(bs, hi, i, j);
    if i + 1 < |bs| && bs[i + 1].kind.Free? {
      LenOf(m, h, bs, hi, i + 1);
      JoinedFits(bs, hi, i);
    }
  }

  /** In a loop it finds nothing. */
  lemma LoopRight(m: seq<nat>, h: nat, bs: Layout, i: nat, hi: nat)
    requires Looped(m, h, bs, i, hi)
    ensures bs[i].addr + 4 < MEMORY && m[bs[i].addr + 4] < MEMORY - 4
    ensures !JoinsRight(m, bs[i].addr, m[bs[i].addr + 4])
  {
    InHeap(bs, hi, i);
  }

  /** The test of kfree for a left neighbour to join. */
  predicate JoinsLeft(m: seq<nat>, prev: nat, block: nat) {
    prev != 0 && !BlockUsed(Load(m, prev)) && prev + BlockSize(Load(m, prev)) == block
  }

  /** In a list that test finds exactly the free block right before. */
  lemma FreeLeft(m: seq<nat>, h: nat, bs: Layout, i: nat, hi: nat)
    requires |m| == MEMORY && Placed(bs, hi) && Represents(m, h, bs) && i < |bs| && bs[i].kind.Free?
    ensures PrevPointer(bs, i) + 4 < MEMORY && bs[i].addr + 4 < MEMORY
    ensures JoinsLeft(m, PrevPointer(bs, i), bs[i].addr) <==> i > 0 && bs[i - 1].kind.Free?
    ensures i > 0 && bs[i - 1].kind.Free? ==>
              && PrevPointer(bs, i) == bs[i - 1].addr < bs[i].addr
              && BlockSize(Load(m, bs[i - 1].addr)) + BlockSize(Load(m, bs[i].addr)) < WORD
  {
    var p := PrevIndex(bs, i);
    InHeap(bs, hi, i);
    LenOf(m, h, bs, hi, i);
    if p >= 0 {
      InHeap(bs, hi, p);
      WalkStep(m, h, bs, hi, p);
      NextIs(bs, p + 1, i);
      Adjacent(bs, hi, p, i);
    }
    if i > 0 && bs[i - 1].kind.Free? { JoinedFits(bs, hi, i - 1); }
  }

  /** In a loop it finds a block that the list has before. */
  lemma LoopLeft(m: seq<nat>, h: nat, bs: Layout, i: nat, hi: nat)
    requires Looped(m, h, bs, i, hi)
    ensures PrevPointer(bs, i) + 4 < MEMORY && bs[i].addr + 4 < MEMORY
    ensures JoinsLeft(m, PrevPointer(bs, i), bs[i].addr) ==>
              && PrevIndex(bs, i) >= 0 && PrevPointer(bs, i) < bs[i].addr
              && BlockSize(Load(m, PrevPointer(bs, i))) + BlockSize(Load(m, bs[i].addr)) < WORD
  {
    InHeap(bs, hi, i);
    if PrevIndex(bs, i) >= 0 { InHeap(bs, hi, PrevIndex(bs, i)); }
  }

  function JoinStores(m: seq<nat>, left: nat, right: nat): seq<nat> {
    Store(Store(m, left, BlockSize(Load(m, left)) + BlockSize(Load(m, right))), left + 4, Load(m, right + 4))
  }

  /** What the insertion leaves for a block that was off the list. */
  lemma InsertKeeps(m: seq<nat>, h: nat, bs: Layout, i: nat, hi: nat)
    requires |m| == MEMORY && Placed(bs, hi) && Represents(m, h, bs) && i < |bs| && bs[i].kind.Live?
    ensures var (n, h') := FreeStores(m, h, bs, i);
            && Placed(MarkFree(bs, i), hi) && Represents(n, h', MarkFree(bs, i))
            && Keeps(m, n, bs, Some(bs[i]), hi)
  {
    var (n, h') := FreeStores(m, h, bs, i);
    InHeap(bs, hi, i);
    FreeWords(m, h, bs, i, hi);
    FreeRepresents(m, h, bs, i, n, h', hi);
    RewrittenKeeps(m, h, bs, i, bs[i], n, h', bs[i].addr, bs[i].size, Some(bs[i]), hi, hi);
    MarkFreeTiles(bs, i, hi);
  }

  /** What the join of two free neighbours leaves. */
  lemma JoinKeeps(m: seq<nat>, h: nat, bs: Layout, i: nat, hi: nat)
    requires |m| == MEMORY && Placed(bs, hi) && Represents(m, h, bs)
    requires i + 1 < |bs| && bs[i].kind.Free? && bs[i + 1].kind.Free?
    ensures var n := JoinStores(m, bs[i].addr, bs[i + 1].addr);
            Placed(Coalesce(bs, i), hi) && Represents(n, h, Coalesce(bs, i)) && Keeps(m, n, bs, None, hi)
  {
    var b, right := Joined(bs, i), bs[i + 1].addr;
    var n := JoinStores(m, bs[i].addr, right);
    LenOf(m, h, bs, hi, i);
    LenOf(m, h, bs, hi, i + 1);
    JoinedFits(bs, hi, i);
    HeaderWords(m, h, bs, i, b, b.size, Load(m, right + 4), hi);
    MergeRepresents(m, h, bs, i, n, hi);
    JoinedApart(bs, hi, i);
    RewrittenKeeps(m, h, bs, i, b, n, h, PointerTo(m, h, bs, i), b.size, None, hi, hi);
    CoalesceTiles(bs, i, hi);
  }

  /** A join with the block before leaves the loop: that block already led to this one. */
  lemma JoinLoops(m: seq<nat>, h: nat, bs: Layout, i: nat, hi: nat)
    requires Looped(m, h, bs, i, hi) && PrevIndex(bs, i) >= 0
    ensures Looped(JoinStores(m, bs[PrevIndex(bs, i)].addr, bs[i].addr), h, bs, i, hi)
  {
    var p := PrevIndex(bs, i);
    var n := JoinStores(m, bs[p].addr, bs[i].addr);
    JoinWords(m, bs[p].addr, bs[i].addr);
    forall k | 0 <= k < i
      ensures LinkKept(n, bs, k)
    {
      JoinLeavesLink(m, h, bs, i, hi, k);
    }
    LinkApart(bs, hi, i, p);
    assert LenAt(bs[i]) != LenAt(bs[p]) by { WordsApart(bs, hi); }
  }

  lemma JoinWords(m: seq<nat>, left: nat, right: nat)
    ensures var n := JoinStores(m, left, right);
            && |n| == |m| && (left + 4 < |m| ==> Load(n, left + 4) == Load(m, right + 4))
            && forall w: nat :: w != left && w != left + 4 ==> Load(n, w) == Load(m, w)
  {
  }

  lemma JoinLeavesLink(m: seq<nat>, h: nat, bs: Layout, i: nat, hi: nat, k: nat)
    requires Looped(m, h, bs, i, hi) && PrevIndex(bs, i) >= 0 && k < i
    ensures LinkKept(JoinStores(m, bs[PrevIndex(bs, i)].addr, bs[i].addr), bs, k)
  {
    var p := PrevIndex(bs, i);
    JoinWords(m, bs[p].addr, bs[i].addr);
    assert LinkKept(m, bs, k);
    if k == p {
      NextIs(bs, p + 1, i);
      InHeap(bs, hi, p);
    } else {
      LinkApart(bs, hi, k, p);
    }
  }

  lemma LinkApart(bs: Layout, hi: nat, k: nat, p: nat)
    requires Placed(bs, hi) && k < |bs| && p < |bs| && k != p
    ensures LinkAt(bs[k]) != LinkAt(bs[p]) && LinkAt(bs[k]) != LenAt(bs[p]) && LenAt(bs[k]) != LinkAt(bs[p])
  {
    WordsApart(bs, hi);
  }

  lemma PrevIndexLocal(bs: Layout, cs: Layout, i: nat)
    requires i <= |bs| && i <= |cs| && bs[..i] == cs[..i]
    ensures PrevPointer(bs, i) == PrevPointer(cs, i)
  {
    assert forall k :: 0 <= k < i ==> bs[k] == bs[..i][k] == cs[k];
    PrevIs(cs, i, PrevIndex(bs, i));
  }

  lemma MarkFreeMembers(bs: Layout, i: nat)
    requires i < |bs|
    ensures forall b <- bs :: !b.kind.Free? && b != bs[i] ==> b in MarkFree(bs, i)
  {
    forall b <- bs | !b.kind.Free? && b != bs[i]
      ensures b in MarkFree(bs, i)
    {
      var k :| 0 <= k < |bs| && bs[k] == b;
      assert MarkFree(bs, i)[k] == b;
    }
  }

  lemma CoalesceMembers(bs: Layout, i: nat)
    requires i < |bs|
    ensures forall b <- bs :: !b.kind.Free? ==> b in Coalesce(bs, i)
  {
    var r := Coalesce(bs, i);
    forall b <- bs | !b.kind.Free?
      ensures b in r
    {
      var k :| 0 <= k < |bs| && bs[k] == b;
      if |r| < |bs| { assert r[if k < i then k else k - 1] == b; }
    }
  }

  lemma KeepsTrans(m: seq<nat>, n: seq<nat>, o: seq<nat>, bs: Layout, cs: Layout, x: Option<Block>, hi: nat)
    requires Keeps(m, n, bs, x, hi) && Keeps(n, o, cs, None, hi)
    requires forall b <- bs :: !b.kind.Free? && x != Some(b) ==> b in cs
    ensures Keeps(m, o, bs, x, hi)
  {
    forall b <- bs | !b.kind.Free? && x != Some(b)
      ensures SamePayload(m, o, b)
    {
      assert SamePayload(m, n, b) && SamePayload(n, o, b);
    }
  }

  /** The pages of a multi-page request lie after every other block. */
  lemma SpanApart(bs: Layout, hi: nat, i: nat)
    requires Placed(bs, hi) && i < |bs| && bs[i].Linked()
    requires forall k :: i <= k < |bs| ==> bs[k].kind.Free?
    ensures forall c <- bs :: !c.kind.Free? ==> c.End() <= bs[i].addr
  {
    TilesOrder(bs, HEAP_START, hi);
  }

  /** The next linked block starts where block i ends exactly when it is block i + 1. */
  lemma Adjacent(bs: Layout, hi: nat, i: nat, j: nat)
    requires Placed(bs, hi) && i < j <= |bs| && j == NextIndex(bs, i + 1)
    ensures j < |bs| ==> (bs[i].End() == bs[j].addr <==> j == i + 1)
    ensures i + 1 < |bs| && bs[i + 1].Linked() ==> j == i + 1
  {
    TilesOrder(bs, HEAP_START, hi);
  }

  lemma JoinedFits(bs: Layout, hi: nat, i: nat)
    requires Placed(bs, hi) && i + 1 < |bs|
    ensures Joined(bs, i).End() <= hi < MEMORY && MIN_BLOCK <= Joined(bs, i).size
    ensures bs[i].addr + MIN_BLOCK <= bs[i + 1].addr
    ensures bs[i + 1].addr + MIN_BLOCK <= hi
  {
    TilesOrder(bs, HEAP_START, hi);
  }

  lemma JoinedApart(bs: Layout, hi: nat, i: nat)
    requires Placed(bs, hi) && i + 1 < |bs| && bs[i].kind.Free? && bs[i + 1].kind.Free?
    ensures Joined(bs, i).End() == bs[i + 1].End() <= hi
    ensures forall c <- bs :: !c.kind.Free? ==> c.End() <= bs[i].addr || Joined(bs, i).End() <= c.addr
  {
    TilesOrder(bs, HEAP_START, hi);
  }

  lemma AlignedLength(len: nat)
    requires len % 4 == 0 && len < WORD - 3
    ensures BlockSize(Align4(len)) == len
  {
    var q := len / 4;
    assert len == 4 * q && (4 * q + 3) / 4 == q;
  }

  lemma InHeap(bs: Layout, hi: nat, i: nat)
    requires Placed(bs, hi) && i < |bs|
    ensures HEAP_START <= bs[i].addr && bs[i].End() <= hi < MEMORY - 8 && bs[i].size >= MIN_BLOCK
    ensures forall c <- bs :: c != bs[i] ==> c.End() <= bs[i].addr || bs[i].End() <= c.addr
  {
    TilesOrder(bs, HEAP_START, hi);
  }

  /** Addresses order blocks as their indices do. */
  lemma BelowStart(bs: Layout, hi: nat, k: nat, i: nat)
    requires Placed(bs, hi) && k < |bs| && i <= |bs|
    ensures bs[k].addr < StartOf(bs, i, hi) <==> k < i
  {
    TilesOrder(bs, HEAP_START, hi);
  }

  lemma FirstFitIs(bs: Layout, needed: nat, i: nat)
    requires i <= |bs|
    requires i < |bs| ==> bs[i].kind.Free? && bs[i].size >= needed
    requires forall k :: 0 <= k < i ==> !(bs[k].kind.Free? && bs[k].size >= needed)
    ensures FirstFit(bs, needed) == i
  {
  }
}
