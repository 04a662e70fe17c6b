/** How memory words represent a tiling: every block starts with its length and used flag, and the
    linked blocks form a list through the word after it. Each lemma follows one operation's stores. */
module HeapMemory {
  import opened Words
  import opened HeapLayout

  /** The word at a 4-aligned byte address a is m[a]; other indices are not used. */
  const MEMORY: nat := WORD

  /** len, with USED_FLAG in its lowest bit. */
  function LenWord(b: Block): nat {
    if b.kind.Free? then b.size else b.size + 1
  }

  function LenAt(b: Block): nat { b.addr }

  function LinkAt(b: Block): nat { b.addr + 4 }

  /** Block k is in memory: its length word, and its link when it is on the list. */
  ghost predicate Stored(m: seq<nat>, bs: Layout, k: nat)
    requires k < |bs|
  {
    && LinkAt(bs[k]) < |m|
    && m[LenAt(bs[k])] == LenWord(bs[k])
    && (bs[k].Linked() ==> m[LinkAt(bs[k])] == Next(bs, k + 1))
  }

  ghost predicate Represents(m: seq<nat>, head: nat, bs: Layout) {
    && head == Next(bs, 0)
    && forall k :: 0 <= k < |bs| ==> Stored(m, bs, k)
  }

  /** A heap tiling inside the memory. */
  ghost predicate Placed(bs: Layout, hi: nat) {
    Tiles(bs, HEAP_START, hi) && hi <= HEAP_END
  }

  lemma WordsApart(bs: Layout, hi: nat)
    requires Placed(bs, hi)
    ensures forall i, j :: 0 <= i < j < |bs| ==> LinkAt(bs[i]) < LenAt(bs[j])
    ensures forall i :: 0 <= i < |bs| ==> HEAP_START <= LenAt(bs[i]) && LinkAt(bs[i]) < hi
  {
    TilesOrder(bs, HEAP_START, hi);
  }

  lemma NextIs(bs: Layout, i: nat, r: nat)
    requires i <= r <= |bs|
    requires r < |bs| ==> bs[r].Linked()
    requires forall k :: i <= k < r ==> !bs[k].Linked()
    ensures NextIndex(bs, i) == r
  {
  }

  /** Stepping over unlinked blocks does not change what comes next. */
  lemma NextSkip(bs: Layout, i: nat, j: nat)
    requires i <= j <= |bs|
    requires forall k :: i <= k < j ==> !bs[k].Linked()
    ensures NextIndex(bs, i) == NextIndex(bs, j)
  {
    NextIs(bs, i, NextIndex(bs, j));
  }

  /** The next linked block is found the same way in two tilings that agree up to a linked block. */
  lemma NextSame(bs: Layout, cs: Layout, i: nat, p: nat)
    requires i <= p < |bs| && p < |cs| && bs[i..p + 1] == cs[i..p + 1] && bs[p].Linked()
    ensures Next(bs, i) == Next(cs, i)
  {
    var r := NextIndex(bs, i);
    assert r <= p;
    assert forall k :: i <= k <= p ==> bs[k] == bs[i..p + 1][k - i] == cs[k];
    NextIs(cs, i, r);
  }

  /** The next linked block is found the same way in equal suffixes. */
  lemma NextShift(bs: Layout, i: nat, cs: Layout, j: nat)
    requires i <= |bs| && j <= |cs| && bs[i..] == cs[j..]
    ensures Next(bs, i) == Next(cs, j)
  {
    assert forall k :: 0 <= k < |bs| - i ==> bs[i + k] == bs[i..][k] == cs[j..][k] == cs[j + k];
    NextIs(cs, j, NextIndex(bs, i) - i + j);
  }

  // ----- Every operation replaces a stretch of blocks and one pointer to it

  predicate Elsewhere(bs: Layout, i: nat, lo: nat, hi: nat, w: nat)
    requires i <= |bs|
  {
    var p := PrevIndex(bs, i);
    !(lo <= w < hi) && (p >= 0 ==> w != LinkAt(bs[p]))
  }

  /** Memory n differs from m only inside [lo, hi) and in the pointer that leads to block i. */
  ghost predicate Relinked(m: seq<nat>, n: seq<nat>, bs: Layout, i: nat, lo: nat, hi: nat)
    requires i <= |bs|
  {
    && |n| == |m|
    && forall w :: 0 <= w < |m| && Elsewhere(bs, i, lo, hi, w) ==> n[w] == m[w]
  }

  /** The pointer that leads to index i: the list head, or the link of the last linked block before. */
  function PointerTo(m: seq<nat>, head: nat, bs: Layout, i: nat): nat
    requires i <= |bs|
  {
    var p := PrevIndex(bs, i);
    if p < 0 then head else if LinkAt(bs[p]) < |m| then m[LinkAt(bs[p])] else 0
  }

  /** The blocks i..j of tiling bs are replaced by the blocks i..e of r, in memory as well. */
  ghost predicate Spliced(m: seq<nat>, head: nat, bs: Layout, i: nat, j: nat,
                          n: seq<nat>, head': nat, r: Layout, e: nat, hi: nat, hi': nat)
  {
    && |m| == MEMORY && Placed(bs, hi) && Represents(m, head, bs)
    && i <= j <= |bs| && i < e <= |r| && r[..i] == bs[..i] && r[e..] == bs[j..]
    && Placed(r, hi')
    && Relinked(m, n, bs, i, r[i].addr, r[e - 1].End())
    && PointerTo(n, head', bs, i) == Next(r, i)
    && (PrevIndex(bs, i) >= 0 ==> head' == head)
    && forall k :: i <= k < e ==> Stored(n, r, k)
  }

  lemma SpliceRepresents(m: seq<nat>, head: nat, bs: Layout, i: nat, j: nat,
                         n: seq<nat>, head': nat, r: Layout, e: nat, hi: nat, hi': nat)
    requires Spliced(m, head, bs, i, j, n, head', r, e, hi, hi')
    ensures Represents(n, head', r)
  {
    var p := PrevIndex(bs, i);
    forall k | 0 <= k < |r|
      ensures Stored(n, r, k)
    {
      if k < i {
        BeforeSplice(m, head, bs, i, j, n, head', r, e, hi, hi', k);
      } else if k >= e {
        AfterSplice(m, head, bs, i, j, n, head', r, e, hi, hi', k - e + j);
      }
    }
    if p < 0 {
      assert forall k :: 0 <= k < i ==> r[k] == r[..i][k] == bs[k];
      NextSkip(r, 0, i);
    } else {
      assert bs[..p + 1] == bs[..i][..p + 1] == r[..p + 1];
      NextSame(bs, r, 0, p);
    }
  }

  lemma BeforeSplice(m: seq<nat>, head: nat, bs: Layout, i: nat, j: nat,
                     n: seq<nat>, head': nat, r: Layout, e: nat, hi: nat, hi': nat, k: nat)
    requires Spliced(m, head, bs, i, j, n, head', r, e, hi, hi') && k < i
    ensures Stored(n, r, k)
  {
    var p := PrevIndex(bs, i);
    assert r[k] == r[..i][k] == bs[k] && Stored(m, bs, k);
    assert LinkAt(bs[k]) < r[i].addr by { WordsApart(r, hi'); }
    assert p >= 0 && k != p ==> LenAt(bs[k]) != LinkAt(bs[p]) && LinkAt(bs[k]) != LinkAt(bs[p]) by {
      WordsApart(bs, hi);
    }
    assert Elsewhere(bs, i, r[i].addr, r[e - 1].End(), LenAt(bs[k]));
    if k != p && bs[k].Linked() { assert Elsewhere(bs, i, r[i].addr, r[e - 1].End(), LinkAt(bs[k])); }
    BeforeStored(m, n, bs, r, i, k);
  }

  lemma AfterSplice(m: seq<nat>, head: nat, bs: Layout, i: nat, j: nat,
                    n: seq<nat>, head': nat, r: Layout, e: nat, hi: nat, hi': nat, q: nat)
    requires Spliced(m, head, bs, i, j, n, head', r, e, hi, hi') && j <= q < |bs|
    ensures Stored(n, r, q - j + e)
  {
    var p := PrevIndex(bs, i);
    var k := q - j + e;
    SameSuffix(bs, j, r, e, q);
    assert Stored(m, bs, q);
    assert r[e - 1].End() <= bs[q].addr by { TilesOrder(r, HEAP_START, hi'); }
    assert p >= 0 ==> LinkAt(bs[p]) < LenAt(bs[q]) by { WordsApart(bs, hi); }
    assert Elsewhere(bs, i, r[i].addr, r[e - 1].End(), LenAt(bs[q]));
    assert Elsewhere(bs, i, r[i].addr, r[e - 1].End(), LinkAt(bs[q]));
    NextShift(bs, q + 1, r, k + 1);
  }

  lemma SameSuffix(bs: Layout, j: nat, r: Layout, e: nat, q: nat)
    requires j <= q < |bs| && e <= |r| && bs[j..] == r[e..]
    ensures q - j + e < |r| && bs[q] == r[q - j + e] && bs[q + 1..] == r[q - j + e + 1..]
  {
    assert bs[q] == bs[j..][q - j] == r[e..][q - j];
    assert bs[q + 1..] == bs[j..][q + 1 - j..] == r[e..][q + 1 - j..];
  }

  /** Blocks before the replaced stretch stay stored: only the last linked one has a new link. */
  lemma BeforeStored(m: seq<nat>, n: seq<nat>, bs: Layout, r: Layout, i: nat, k: nat)
    requires |n| == |m| && k < i <= |bs| && i <= |r| && r[..i] == bs[..i]
    requires Stored(m, bs, k) && n[LenAt(bs[k])] == m[LenAt(bs[k])]
    requires var p := PrevIndex(bs, i);
             if k == p then n[LinkAt(bs[k])] == Next(r, i)
             else bs[k].Linked() ==> n[LinkAt(bs[k])] == m[LinkAt(bs[k])]
    ensures Stored(n, r, k)
  {
    var p := PrevIndex(bs, i);
    assert forall x :: 0 <= x < i ==> r[x] == r[..i][x] == bs[x];
    if k == p {
      NextSkip(r, k + 1, i);
    } else if bs[k].Linked() {
      assert bs[k + 1..p + 1] == r[k + 1..p + 1];
      NextSame(bs, r, k + 1, p);
    }
  }

  // ----- The stores of each operation

  function Store(m: seq<nat>, addr: nat, v: nat): (n: seq<nat>)
    ensures |n| == |m|
  {
    if addr < |m| then m[addr := v] else m
  }

  function Load(m: seq<nat>, addr: nat): nat {
    if addr < |m| then m[addr] else 0
  }

  /** `if (prev) prev->next = target; else list = target;` */
  function Redirect(m: seq<nat>, head: nat, bs: Layout, i: nat, target: nat): (seq<nat>, nat)
    requires i <= |bs|
  {
    var p := PrevIndex(bs, i);
    if p < 0 then (m, target) else (Store(m, bs[p].addr + 4, target), head)
  }

  /** A store inside the stretch, seen word by word. */
  lemma StoreInside(m: seq<nat>, n: seq<nat>, bs: Layout, i: nat, lo: nat, hi: nat, addr: nat, v: nat)
    requires i <= |bs| && Relinked(m, n, bs, i, lo, hi)
    requires lo <= addr < hi && addr < |m|
    ensures var s := Store(n, addr, v);
            && Relinked(m, s, bs, i, lo, hi) && s[addr] == v
            && (forall w :: 0 <= w < |m| && w != addr ==> s[w] == n[w])
  {
  }

  function StartOf(bs: Layout, i: nat, hi: nat): nat
    requires i <= |bs|
  {
    if i < |bs| then bs[i].addr else hi
  }

  /** The block whose link leads to index i lies before block i. */
  lemma PrevBefore(bs: Layout, i: nat, hi: nat)
    requires Placed(bs, hi) && i <= |bs|
    ensures var p := PrevIndex(bs, i);
            p >= 0 ==> LinkAt(bs[p]) + 4 < StartOf(bs, i, hi) <= hi
  {
    TilesOrder(bs, HEAP_START, hi);
  }

  /** Redirecting the pointer to i touches no word from block i onwards. */
  lemma RedirectBefore(m: seq<nat>, n: seq<nat>, head: nat, bs: Layout, i: nat, lo: nat, hi: nat, target: nat, end: nat)
    requires |m| == MEMORY && i <= |bs| && Placed(bs, end) && Relinked(m, n, bs, i, lo, hi)
    requires lo == StartOf(bs, i, end)
    ensures var (s, head') := Redirect(n, head, bs, i, target);
            && Relinked(m, s, bs, i, lo, hi) && PointerTo(s, head', bs, i) == target
            && (PrevIndex(bs, i) >= 0 ==> head' == head)
            && (forall w :: lo <= w < |m| ==> s[w] == n[w])
  {
    PrevBefore(bs, i, end);
  }

  /** A store from block i onwards leaves the pointer to i alone. */
  lemma PointerBefore(n: seq<nat>, head: nat, bs: Layout, i: nat, addr: nat, v: nat, hi: nat)
    requires i <= |bs| && Placed(bs, hi) && StartOf(bs, i, hi) <= addr
    ensures PointerTo(Store(n, addr, v), head, bs, i) == PointerTo(n, head, bs, i)
  {
    PrevBefore(bs, i, hi);
  }

  /** What the stores of an operation leave in memory: only the stretch of b and the pointer to it
      changed, the pointer now holds `target`, and b's length word is `len`. */
  ghost predicate Rewritten(m: seq<nat>, head: nat, bs: Layout, i: nat, b: Block, n: seq<nat>, head': nat,
                            target: nat, len: nat)
    requires i <= |bs|
  {
    && Relinked(m, n, bs, i, b.addr, b.End())
    && PointerTo(n, head', bs, i) == target
    && (PrevIndex(bs, i) >= 0 ==> head' == head)
    && Load(n, b.addr) == len
  }

  /** After such stores memory holds any tiling that differs in that stretch and is stored there. */
  lemma RewrittenRepresents(m: seq<nat>, head: nat, bs: Layout, i: nat, j: nat, b: Block, n: seq<nat>, head': nat,
                            target: nat, len: nat, r: Layout, e: nat, hi: nat)
    requires |m| == MEMORY && Placed(bs, hi) && Represents(m, head, bs) && Placed(r, hi)
    requires i <= j <= |bs| && i < e <= |r| && r[..i] == bs[..i] && r[e..] == bs[j..]
    requires Rewritten(m, head, bs, i, b, n, head', target, len)
    requires b.addr == r[i].addr && b.End() == r[e - 1].End() && target == Next(r, i)
    requires forall k :: i <= k < e ==> Stored(n, r, k)
    ensures Represents(n, head', r)
  {
    SpliceRepresents(m, head, bs, i, j, n, head', r, e, hi, hi);
  }

  // ----- kmalloc, splitting: the rest becomes a block and takes over the link and the pointer

  function SplitStores(m: seq<nat>, head: nat, bs: Layout, i: nat, needed: nat): (seq<nat>, nat)
    requires i < |bs| && needed <= bs[i].size
  {
    var a, rest := bs[i].addr, bs[i].addr + needed;
    var m1 := Store(Store(m, rest, bs[i].size - needed), rest + 4, Load(m, a + 4));
    var (m2, head') := Redirect(m1, head, bs, i, rest);
    (Store(m2, a, needed + 1), head')
  }

  lemma SplitWords(m: seq<nat>, head: nat, bs: Layout, i: nat, needed: nat, hi: nat)
    requires |m| == MEMORY && Placed(bs, hi) && i < |bs|
    requires MIN_BLOCK <= needed && needed + MIN_BLOCK <= bs[i].size
    ensures var (n, head') := SplitStores(m, head, bs, i, needed);
            var b := bs[i];
            && Rewritten(m, head, bs, i, b, n, head', b.addr + needed, needed + 1)
            && Load(n, b.addr + needed) == b.size - needed
            && Load(n, b.addr + needed + 4) == Load(m, b.addr + 4)
  {
    var b := bs[i];
    assert b.End() <= HEAP_END by { TilesOrder(bs, HEAP_START, hi); }
    var (a, rest, end) := (b.addr, b.addr + needed, b.End());
    var m0 := Store(m, rest, b.size - needed);
    var m1 := Store(m0, rest + 4, Load(m, a + 4));
    StoreInside(m, m, bs, i, a, end, rest, b.size - needed);
    StoreInside(m, m0, bs, i, a, end, rest + 4, Load(m, a + 4));
    RedirectBefore(m, m1, head, bs, i, a, end, rest, hi);
    var (m2, head') := Redirect(m1, head, bs, i, rest);
    StoreInside(m, m2, bs, i, a, end, a, needed + 1);
    PointerBefore(m2, head', bs, i, a, needed + 1, hi);
  }

  lemma SplitNext(bs: Layout, i: nat, needed: nat)
    requires i < |bs| && needed + MIN_BLOCK <= bs[i].size
    ensures var r := Take(bs, i, needed);
            && |r| == |bs| + 1 && r[..i] == bs[..i] && r[i + 2..] == bs[i + 1..]
            && r[i] == Block(bs[i].addr, needed, Live)
            && r[i + 1] == Block(bs[i].addr + needed, bs[i].size - needed, Free)
            && Next(r, i) == bs[i].addr + needed && Next(r, i + 2) == Next(bs, i + 1)
  {
    var r := Take(bs, i, needed);
    assert r[i + 2..] == bs[i + 1..];
    NextShift(bs, i + 1, r, i + 2);
    NextIs(r, i, i + 1);
  }

  lemma SplitStored(m: seq<nat>, bs: Layout, i: nat, needed: nat, n: seq<nat>, r: Layout)
    requires i < |bs| && bs[i].kind.Free? && needed + MIN_BLOCK <= bs[i].size && i + 1 < |r|
    requires r[i] == Block(bs[i].addr, needed, Live) && Next(r, i + 2) == Next(bs, i + 1)
    requires r[i + 1] == Block(bs[i].addr + needed, bs[i].size - needed, Free)
    requires |m| == |n| && bs[i].End() < |m| && Stored(m, bs, i)
    requires Load(n, bs[i].addr) == needed + 1 && Load(n, bs[i].addr + needed) == bs[i].size - needed
    requires Load(n, bs[i].addr + needed + 4) == Load(m, bs[i].addr + 4)
    ensures Stored(n, r, i) && Stored(n, r, i + 1)
  {
  }

  lemma SplitInto(m: seq<nat>, head: nat, bs: Layout, i: nat, needed: nat, n: seq<nat>, head': nat, r: Layout, hi: nat)
    requires |m| == MEMORY && Placed(bs, hi) && Represents(m, head, bs) && Placed(r, hi) && i < |bs|
    requires |r| == |bs| + 1 && r[..i] == bs[..i] && r[i + 2..] == bs[i + 1..]
    requires r[i].addr == bs[i].addr && r[i + 1].End() == bs[i].End() && Next(r, i) == bs[i].addr + needed
    requires Stored(n, r, i) && Stored(n, r, i + 1)
    requires Rewritten(m, head, bs, i, bs[i], n, head', bs[i].addr + needed, needed + 1)
    ensures Represents(n, head', r)
  {
    RewrittenRepresents(m, head, bs, i, i + 1, bs[i], n, head', bs[i].addr + needed, needed + 1, r, i + 2, hi);
  }

  lemma SplitRepresents(m: seq<nat>, head: nat, bs: Layout, i: nat, needed: nat, n: seq<nat>, head': nat, hi: nat)
    requires |m| == MEMORY && Placed(bs, hi) && Represents(m, head, bs) && i < |bs| && bs[i].kind.Free?
    requires MIN_BLOCK <= needed && needed % 4 == 0 && needed + MIN_BLOCK <= bs[i].size
    requires Rewritten(m, head, bs, i, bs[i], n, head', bs[i].addr + needed, needed + 1)
    requires Load(n, bs[i].addr + needed) == bs[i].size - needed
    requires Load(n, bs[i].addr + needed + 4) == Load(m, bs[i].addr + 4)
    ensures Represents(n, head', Take(bs, i, needed))
  {
    var r := Take(bs, i, needed);
    assert bs[i].End() <= HEAP_END by { TilesOrder(bs, HEAP_START, hi); }
    assert Stored(m, bs, i);
    SplitNext(bs, i, needed);
    SplitStored(m, bs, i, needed, n, r);
    assert Placed(r, hi) by { TakeTiles(bs, i, needed, hi); }
    SplitInto(m, head, bs, i, needed, n, head', r, hi);
  }

  // ----- kmalloc, granting whole: the pointer skips the block

  function WholeStores(m: seq<nat>, head: nat, bs: Layout, i: nat): (seq<nat>, nat)
    requires i < |bs|
  {
    var (m1, head') := Redirect(m, head, bs, i, Load(m, bs[i].addr + 4));
    (Store(m1, bs[i].addr, bs[i].size + 1), head')
  }

  lemma WholeWords(m: seq<nat>, head: nat, bs: Layout, i: nat, hi: nat)
    requires |m| == MEMORY && Placed(bs, hi) && i < |bs|
    ensures var (n, head') := WholeStores(m, head, bs, i);
            Rewritten(m, head, bs, i, bs[i], n, head', Load(m, bs[i].addr + 4), bs[i].size + 1)
  {
    var b := bs[i];
    assert b.size >= MIN_BLOCK && b.End() <= HEAP_END by { TilesOrder(bs, HEAP_START, hi); }
    RedirectBefore(m, m, head, bs, i, b.addr, b.End(), Load(m, b.addr + 4), hi);
    var (m1, head') := Redirect(m, head, bs, i, Load(m, b.addr + 4));
    StoreInside(m, m1, bs, i, b.addr, b.End(), b.addr, b.size + 1);
    PointerBefore(m1, head', bs, i, b.addr, b.size + 1, hi);
  }

  lemma WholeNext(bs: Layout, i: nat, needed: nat)
    requires i < |bs| && bs[i].size < needed + MIN_BLOCK
    ensures var r := Take(bs, i, needed);
            && r[i] == bs[i].(kind := Live) && r[..i] == bs[..i] && r[i + 1..] == bs[i + 1..]
            && Next(r, i) == Next(bs, i + 1)
  {
    var r := Take(bs, i, needed);
    assert r[i + 1..] == bs[i + 1..];
    NextShift(bs, i + 1, r, i + 1);
    NextSkip(r, i, i + 1);
  }

  lemma WholeRepresents(m: seq<nat>, head: nat, bs: Layout, i: nat, needed: nat, n: seq<nat>, head': nat, hi: nat)
    requires |m| == MEMORY && Placed(bs, hi) && Represents(m, head, bs) && i < |bs| && bs[i].kind.Free?
    requires MIN_BLOCK <= needed <= bs[i].size < needed + MIN_BLOCK && needed % 4 == 0
    requires Rewritten(m, head, bs, i, bs[i], n, head', Load(m, bs[i].addr + 4), bs[i].size + 1)
    ensures Represents(n, head', Take(bs, i, needed))
  {
    var r := Take(bs, i, needed);
    assert bs[i].End() <= HEAP_END by { TilesOrder(bs, HEAP_START, hi); }
    assert Placed(r, hi) by { TakeTiles(bs, i, needed, hi); }
    WholeNext(bs, i, needed);
    assert Stored(m, bs, i);
    SpliceRepresents(m, head, bs, i, i + 1, n, head', r, i + 1, hi, hi);
  }

  // ----- kfree, insertion: unmark the block and link it where the address order wants it

  function FreeStores(m: seq<nat>, head: nat, bs: Layout, i: nat): (seq<nat>, nat)
    requires i < |bs|
  {
    var m1 := Store(Store(m, bs[i].addr, bs[i].size), bs[i].addr + 4, Next(bs, i));
    Redirect(m1, head, bs, i, bs[i].addr)
  }

  lemma FreeWords(m: seq<nat>, head: nat, bs: Layout, i: nat, hi: nat)
    requires |m| == MEMORY && Placed(bs, hi) && i < |bs|
    ensures var (n, head') := FreeStores(m, head, bs, i);
            var b := bs[i];
            && Rewritten(m, head, bs, i, b, n, head', b.addr, b.size)
            && Load(n, b.addr + 4) == Next(bs, i)
  {
    var b := bs[i];
    var next := Next(bs, i);
    assert b.size >= MIN_BLOCK && b.End() <= HEAP_END by { TilesOrder(bs, HEAP_START, hi); }
    StoreInside(m, m, bs, i, b.addr, b.End(), b.addr, b.size);
    var m0 := Store(m, b.addr, b.size);
    StoreInside(m, m0, bs, i, b.addr, b.End(), b.addr + 4, next);
    RedirectBefore(m, Store(m0, b.addr + 4, next), head, bs, i, b.addr, b.End(), b.addr, hi);
  }

  lemma MarkShape(bs: Layout, i: nat)
    requires i < |bs| && bs[i].kind.Live?
    ensures var r := MarkFree(bs, i);
            && |r| == |bs| && r[..i] == bs[..i] && r[i] == bs[i].(kind := Free) && r[i + 1..] == bs[i + 1..]
            && Next(r, i) == bs[i].addr && Next(r, i + 1) == Next(bs, i)
  {
    var r := MarkFree(bs, i);
    assert r[i + 1..] == bs[i + 1..];
    NextSkip(bs, i, i + 1);
    NextShift(bs, i + 1, r, i + 1);
  }

  lemma FreeRepresents(m: seq<nat>, head: nat, bs: Layout, i: nat, n: seq<nat>, head': nat, hi: nat)
    requires |m| == MEMORY && Placed(bs, hi) && Represents(m, head, bs) && i < |bs| && bs[i].kind.Live?
    requires Rewritten(m, head, bs, i, bs[i], n, head', bs[i].addr, bs[i].size)
    requires Load(n, bs[i].addr + 4) == Next(bs, i)
    ensures Represents(n, head', MarkFree(bs, i))
  {
    var r := MarkFree(bs, i);
    assert bs[i].End() <= HEAP_END && bs[i].size >= MIN_BLOCK by { TilesOrder(bs, HEAP_START, hi); }
    assert Placed(r, hi) by { MarkFreeTiles(bs, i, hi); }
    MarkShape(bs, i);
    assert Stored(n, r, i);
    SpliceRepresents(m, head, bs, i, i + 1, n, head', r, i + 1, hi, hi);
  }

  // ----- kfree of a multi-page block: the list runs into a loop

  /** Some heap is what memory holds. */
  ghost predicate HoldsList(m: seq<nat>, head: nat) {
    exists bs: Layout, hi: nat :: Placed(bs, hi) && Represents(m, head, bs)
  }

  /** The list leads as before to block i, which is not in use any more and links to itself. */
  ghost predicate Looped(m: seq<nat>, head: nat, bs: Layout, i: nat, hi: nat) {
    && |m| == MEMORY && Placed(bs, hi) && i < |bs| && bs[i].kind.Span?
    && head == Next(bs, 0)
    && (forall k :: 0 <= k < i ==> LinkKept(m, bs, k))
    && Load(m, LenAt(bs[i])) == bs[i].size && Load(m, LinkAt(bs[i])) == bs[i].addr
  }

  ghost predicate LinkKept(m: seq<nat>, bs: Layout, k: nat)
    requires k < |bs|
  {
    bs[k].Linked() ==> Load(m, LinkAt(bs[k])) == Next(bs, k + 1)
  }

  predicate LinkedAt(bs: Layout, addr: nat) {
    exists k :: 0 <= k < |bs| && bs[k].addr == addr && bs[k].Linked()
  }

  /** Whatever heap memory holds, the list's first blocks are listed in it. */
  lemma {:induction false} LoopReached(m: seq<nat>, head: nat, bs: Layout, i: nat, hi: nat,
                                       cs: Layout, top: nat, k: nat)
    requires Looped(m, head, bs, i, hi) && Placed(cs, top) && Represents(m, head, cs)
    requires k <= i && bs[k].Linked()
    ensures LinkedAt(cs, bs[k].addr)
  {
    var p := PrevIndex(bs, k);
    NextIs(bs, p + 1, k);
    assert bs[k].addr > 0 by { TilesOrder(bs, HEAP_START, hi); }
    if p < 0 {
      assert cs[NextIndex(cs, 0)].addr == bs[k].addr;
    } else {
      LoopReached(m, head, bs, i, hi, cs, top, p);
      var q :| 0 <= q < |cs| && cs[q].addr == bs[p].addr && cs[q].Linked();
      assert LinkKept(m, bs, p) && Stored(m, cs, q);
      assert cs[NextIndex(cs, q + 1)].addr == bs[k].addr;
    }
  }

  /** So no heap is: a listed block never links to itself. */
  lemma LoopHoldsNothing(m: seq<nat>, head: nat, bs: Layout, i: nat, hi: nat)
    requires Looped(m, head, bs, i, hi)
    ensures !HoldsList(m, head)
  {
    forall cs: Layout, top: nat | Placed(cs, top)
      ensures !Represents(m, head, cs)
    {
      if Represents(m, head, cs) {
        LoopReached(m, head, bs, i, hi, cs, top, i);
        NoSelfLink(m, head, cs, top, bs[i].addr);
      }
    }
  }

  lemma NoSelfLink(m: seq<nat>, head: nat, cs: Layout, top: nat, addr: nat)
    requires Placed(cs, top) && Represents(m, head, cs) && LinkedAt(cs, addr)
    ensures Load(m, addr + 4) != addr
  {
    var k :| 0 <= k < |cs| && cs[k].addr == addr && cs[k].Linked();
    assert Stored(m, cs, k);
    TilesOrder(cs, HEAP_START, top);
  }

  /** Linking a multi-page block makes the loop: it is still on the list, so the walk stops at the block
      itself. */
  lemma FreeLoops(m: seq<nat>, head: nat, bs: Layout, i: nat, hi: nat)
    requires |m| == MEMORY && Placed(bs, hi) && Represents(m, head, bs) && i < |bs| && bs[i].kind.Span?
    ensures var (n, head') := FreeStores(m, head, bs, i);
            Looped(n, head', bs, i, hi)
  {
    var (n, head') := FreeStores(m, head, bs, i);
    var p := PrevIndex(bs, i);
    FreeWords(m, head, bs, i, hi);
    NextIs(bs, p + 1, i);
    forall k | 0 <= k < i
      ensures LinkKept(n, bs, k)
    {
      if bs[k].Linked() {
        assert Stored(m, bs, k);
        FreeLeavesLink(m, head, bs, i, hi, k);
      }
    }
    if p < 0 { NextIs(bs, 0, i); }
  }

  lemma FreeLeavesLink(m: seq<nat>, head: nat, bs: Layout, i: nat, hi: nat, k: nat)
    requires |m| == MEMORY && Placed(bs, hi) && Represents(m, head, bs) && i < |bs| && bs[i].kind.Span?
    requires k < i && bs[k].Linked()
    ensures Load(FreeStores(m, head, bs, i).0, LinkAt(bs[k])) ==
            if k == PrevIndex(bs, i) then bs[i].addr else Load(m, LinkAt(bs[k]))
  {
    FreeWords(m, head, bs, i, hi);
    WordsApart(bs, hi);
    var p := PrevIndex(bs, i);
    assert k <= p;
    if k != p {
      assert Elsewhere(bs, i, bs[i].addr, bs[i].End(), LinkAt(bs[k]));
    }
  }

  /** Linking a handed-out block leaves a list exactly when the block was off the list. */
  lemma FreeListExact(m: seq<nat>, head: nat, bs: Layout, i: nat, hi: nat)
    requires |m| == MEMORY && Placed(bs, hi) && Represents(m, head, bs) && i < |bs| && !bs[i].kind.Free?
    ensures var (n, head') := FreeStores(m, head, bs, i);
            HoldsList(n, head') <==> bs[i].kind.Live?
  {
    var (n, head') := FreeStores(m, head, bs, i);
    if bs[i].kind.Live? {
      FreeWords(m, head, bs, i, hi);
      FreeRepresents(m, head, bs, i, n, head', hi);
      MarkFreeTiles(bs, i, hi);
      assert Placed(MarkFree(bs, i), hi);
    } else {
      FreeLoops(m, head, bs, i, hi);
      LoopHoldsNothing(n, head', bs, i, hi);
    }
  }

  // ----- kfree, coalescing: the left block takes over the right one's bytes and link

  function Joined(bs: Layout, i: nat): Block
    requires i + 1 < |bs|
  {
    Block(bs[i].addr, bs[i].size + bs[i + 1].size, Free)
  }

  /** Writing the header of a block that starts where block i does leaves the pointer to it alone. */
  lemma HeaderWords(m: seq<nat>, head: nat, bs: Layout, i: nat, b: Block, len: nat, next: nat, hi: nat)
    requires |m| == MEMORY && Placed(bs, hi) && i < |bs|
    requires b.addr == bs[i].addr && MIN_BLOCK <= b.size && b.End() <= HEAP_END
    ensures var n := Store(Store(m, b.addr, len), b.addr + 4, next);
            && Rewritten(m, head, bs, i, b, n, head, PointerTo(m, head, bs, i), len)
            && Load(n, b.addr + 4) == next
  {
    StoreInside(m, m, bs, i, b.addr, b.End(), b.addr, len);
    PointerBefore(m, head, bs, i, b.addr, len, hi);
    var m0 := Store(m, b.addr, len);
    StoreInside(m, m0, bs, i, b.addr, b.End(), b.addr + 4, next);
    PointerBefore(m0, head, bs, i, b.addr + 4, next, hi);
  }

  lemma MergeStored(m: seq<nat>, bs: Layout, i: nat, n: seq<nat>, r: Layout)
    requires i + 1 < |bs| && bs[i].kind.Free? && bs[i + 1].kind.Free?
    requires i < |r| && r[i] == Joined(bs, i) && r[i + 1..] == bs[i + 2..]
    requires |m| == |n| && Stored(m, bs, i + 1) && LinkAt(bs[i]) < |m|
    requires Load(n, bs[i].addr) == Joined(bs, i).size
    requires Load(n, bs[i].addr + 4) == Load(m, bs[i + 1].addr + 4)
    ensures Next(r, i) == Next(bs, i) && Stored(n, r, i)
  {
    NextShift(bs, i + 2, r, i + 1);
  }

  lemma JoinShape(bs: Layout, i: nat)
    requires i + 1 < |bs| && bs[i].kind.Free? && bs[i + 1].kind.Free?
    ensures var r := Coalesce(bs, i);
            |r| == |bs| - 1 && r[..i] == bs[..i] && r[i] == Joined(bs, i) && r[i + 1..] == bs[i + 2..]
  {
  }

  lemma MergeInto(m: seq<nat>, head: nat, bs: Layout, i: nat, n: seq<nat>, r: Layout, hi: nat)
    requires |m| == MEMORY && Placed(bs, hi) && Represents(m, head, bs) && Placed(r, hi) && i + 1 < |bs|
    requires |r| == |bs| - 1 && r[..i] == bs[..i] && r[i] == Joined(bs, i) && r[i + 1..] == bs[i + 2..]
    requires Next(r, i) == Next(bs, i) && Stored(n, r, i)
    requires Rewritten(m, head, bs, i, Joined(bs, i), n, head, PointerTo(m, head, bs, i), Joined(bs, i).size)
    ensures Represents(n, head, r)
  {
    PointerHolds(m, head, bs, i);
    RewrittenRepresents(m, head, bs, i, i + 2, r[i], n, head, PointerTo(m, head, bs, i), r[i].size, r, i + 1, hi);
  }

  lemma MergeRepresents(m: seq<nat>, head: nat, bs: Layout, i: nat, n: seq<nat>, hi: nat)
    requires |m| == MEMORY && Placed(bs, hi) && Represents(m, head, bs)
    requires i + 1 < |bs| && bs[i].kind.Free? && bs[i + 1].kind.Free?
    requires Rewritten(m, head, bs, i, Joined(bs, i), n, head, PointerTo(m, head, bs, i), Joined(bs, i).size)
    requires Load(n, bs[i].addr + 4) == Load(m, bs[i + 1].addr + 4)
    ensures Represents(n, head, Coalesce(bs, i))
  {
    var r := Coalesce(bs, i);
    assert Joined(bs, i).End() <= HEAP_END && Joined(bs, i).size >= MIN_BLOCK by { TilesOrder(bs, HEAP_START, hi); }
    assert Stored(m, bs, i + 1);
    JoinShape(bs, i);
    MergeStored(m, bs, i, n, r);
    assert Placed(r, hi) by { CoalesceTiles(bs, i, hi); }
    MergeInto(m, head, bs, i, n, r, hi);
  }

  /** In memory, the pointer to index i is the address of the next linked block. */
  lemma PointerHolds(m: seq<nat>, head: nat, bs: Layout, i: nat)
    requires Represents(m, head, bs) && i <= |bs|
    ensures PointerTo(m, head, bs, i) == Next(bs, i)
  {
    var p := PrevIndex(bs, i);
    NextSkip(bs, p + 1, i);
    if p >= 0 { assert Stored(m, bs, p); }
  }

  // ----- heap_grow and multi-page kmalloc: a new last block

  function AppendStores(m: seq<nat>, head: nat, bs: Layout, b: Block): (seq<nat>, nat) {
    Redirect(Store(Store(m, b.addr, LenWord(b)), b.addr + 4, 0), head, bs, |bs|, b.addr)
  }

  lemma AppendWords(m: seq<nat>, head: nat, bs: Layout, b: Block, hi: nat)
    requires |m| == MEMORY && Placed(bs, hi)
    requires b.addr == hi && b.Sound() && b.End() <= HEAP_END
    ensures var (n, head') := AppendStores(m, head, bs, b);
            Rewritten(m, head, bs, |bs|, b, n, head', hi, LenWord(b)) && Load(n, b.addr + 4) == 0
  {
    StoreInside(m, m, bs, |bs|, b.addr, b.End(), b.addr, LenWord(b));
    var m0 := Store(m, b.addr, LenWord(b));
    StoreInside(m, m0, bs, |bs|, b.addr, b.End(), b.addr + 4, 0);
    RedirectBefore(m, Store(m0, b.addr + 4, 0), head, bs, |bs|, b.addr, b.End(), b.addr, hi);
  }

  lemma AppendRepresents(m: seq<nat>, head: nat, bs: Layout, b: Block, n: seq<nat>, head': nat, hi: nat)
    requires |m| == MEMORY && Placed(bs, hi) && Represents(m, head, bs)
    requires b.addr == hi && b.Sound() && b.Linked() && b.End() <= HEAP_END
    requires Rewritten(m, head, bs, |bs|, b, n, head', hi, LenWord(b)) && Load(n, b.addr + 4) == 0
    ensures Represents(n, head', bs + [b])
  {
    var r := bs + [b];
    AppendTiles(bs, b, hi);
    assert r[|bs|] == b;
    assert Stored(n, r, |bs|);
    assert r[..|bs|] == bs == bs[..|bs|] && r[|bs| + 1..] == bs[|bs|..];
    SpliceRepresents(m, head, bs, |bs|, |bs|, n, head', r, |bs| + 1, hi, b.End());
  }

  // ----- kmalloc, multi-page: the new pages become one used block at the end of the list

  function SpanFrom(bs: Layout, i: nat, hi: nat): Layout
    requires i < |bs| && bs[i].addr <= hi
  {
    bs[..i] + [Block(bs[i].addr, hi - bs[i].addr, Span)]
  }

  lemma SpanTiles(bs: Layout, i: nat, hi: nat)
    requires Placed(bs, hi) && i < |bs|
    ensures bs[i].addr <= hi && Placed(SpanFrom(bs, i, hi), hi)
  {
    TilesOrder(bs, HEAP_START, hi);
    var mid := TilesSplit(bs, i, HEAP_START, hi);
    SpanSound(bs, i, hi);
    AppendTiles(bs[..i], Block(bs[i].addr, hi - bs[i].addr, Span), mid);
  }

  lemma SpanSound(bs: Layout, i: nat, hi: nat)
    requires Placed(bs, hi) && i < |bs|
    ensures bs[i].addr + MIN_BLOCK <= hi && (hi - bs[i].addr) % 4 == 0
  {
    TilesOrder(bs, HEAP_START, hi);
    var last := bs[|bs| - 1];
    assert last.addr % 4 == 0 && last.size % 4 == 0 && last.End() == hi;
  }

  lemma SpanRepresents(m: seq<nat>, head: nat, bs: Layout, i: nat, n: seq<nat>, hi: nat)
    requires |m| == MEMORY && Placed(bs, hi) && Represents(m, head, bs) && i < |bs| && bs[i].Linked()
    requires bs[i].addr <= hi
    requires var b := Block(bs[i].addr, hi - bs[i].addr, Span);
             && Rewritten(m, head, bs, i, b, n, head, PointerTo(m, head, bs, i), b.size + 1)
             && Load(n, b.addr + 4) == 0
    ensures Represents(n, head, SpanFrom(bs, i, hi))
  {
    var r := SpanFrom(bs, i, hi);
    assert Placed(r, hi) by { SpanTiles(bs, i, hi); }
    assert bs[i].addr + MIN_BLOCK <= hi by { SpanSound(bs, i, hi); }
    assert PointerTo(m, head, bs, i) == Next(bs, i) by { PointerHolds(m, head, bs, i); }
    assert r[..i] == bs[..i] && r[i + 1..] == [] == bs[|bs|..];
    assert Stored(n, r, i);
    SpliceRepresents(m, head, bs, i, |bs|, n, head, r, i + 1, hi, hi);
  }
}
