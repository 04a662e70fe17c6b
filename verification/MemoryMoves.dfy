/** The byte-moving loops of the kernel's memory library. Source and destination may overlap. */
module MemoryMoves {
  import opened Words

  /** Memory after n bytes have moved from src to dest. */
  ghost predicate Moved(before: seq<byte>, after: seq<byte>, dest: nat, src: nat, n: nat)
    requires |after| == |before| && dest + n <= |before| && src + n <= |before|
  {
    && after[dest..dest + n] == before[src..src + n]
    && forall w :: 0 <= w < |before| && !(dest <= w < dest + n) ==> after[w] == before[w]
  }

  /** memmove: the direction of the copy makes it right for every overlap. */
  method MemMove(mem: array<byte>, dest: nat, src: nat, n: nat)
    requires dest + n <= mem.Length && src + n <= mem.Length
    modifies mem
    ensures Moved(old(mem[..]), mem[..], dest, src, n)
  {
    ghost var before := mem[..];
    if dest == src || n == 0 { return; }
    if dest < src {
      CopyUp(mem, dest, mem, src, n);
      assert ForwardExact(before, dest, src, n) by { ForwardIff(before, dest, src, n); }
    } else {
      var i := n;
      while i != 0
        invariant 0 <= i <= n
        invariant forall w :: dest + i <= w < dest + n ==> mem[w] == before[w - dest + src]
        invariant forall w :: 0 <= w < mem.Length && !(dest + i <= w < dest + n) ==> mem[w] == before[w]
        decreases i
      {
        mem[dest + i - 1] := mem[src + i - 1];
        i := i - 1;
      }
    }
  }

  /** memcpy, and the upward loop of memmove: each byte as it is when its turn comes. Between two
      memories the bytes arrive as they were. */
  method CopyUp(mem: array<byte>, dest: nat, from: array<byte>, src: nat, n: nat)
    requires dest + n <= mem.Length && src + n <= from.Length
    modifies mem
    ensures from == mem ==> mem[..] == Forward(old(mem[..]), dest, src, n)
    ensures from != mem ==> mem[..] == Overwritten(old(mem[..]), dest, from[src..src + n])
  {
    ghost var before := mem[..];
    for i := 0 to n
      invariant from == mem ==> mem[..] == Forward(before, dest, src, i)
      invariant from != mem ==> mem[..] == Overwritten(before, dest, from[src..src + i])
    {
      mem[dest + i] := from[src + i];
    }
  }

  /** A stretch of memory replaced by other bytes. */
  function Overwritten(mem: seq<byte>, dest: nat, bytes: seq<byte>): (r: seq<byte>)
    requires dest + |bytes| <= |mem|
    ensures |r| == |mem|
    ensures forall w :: 0 <= w < |mem| ==> r[w] == if dest <= w < dest + |bytes| then bytes[w - dest] else mem[w]
  {
    mem[..dest] + bytes + mem[dest + |bytes|..]
  }

  /** Copying one byte after the other, upwards. */
  function Forward(mem: seq<byte>, dest: nat, src: nat, n: nat): (r: seq<byte>)
    requires dest + n <= |mem| && src + n <= |mem|
    ensures |r| == |mem|
  {
    if n == 0 then mem
    else
      var m := Forward(mem, dest, src, n - 1);
      m[dest + n - 1 := m[src + n - 1]]
  }

  ghost predicate ForwardExact(mem: seq<byte>, dest: nat, src: nat, n: nat)
    requires dest + n <= |mem| && src + n <= |mem|
  {
    Moved(mem, Forward(mem, dest, src, n), dest, src, n)
  }

  /** Only the bytes dest + k .. dest + n are written after the first k steps. */
  lemma {:induction false} ForwardSettled(mem: seq<byte>, dest: nat, src: nat, n: nat, k: nat, w: nat)
    requires dest + n <= |mem| && src + n <= |mem| && k <= n
    requires w < |mem| && !(dest + k <= w < dest + n)
    ensures Forward(mem, dest, src, n)[w] == Forward(mem, dest, src, k)[w]
    decreases n
  {
    if k < n { ForwardSettled(mem, dest, src, n - 1, k, w); }
  }

  /** What the upward copy leaves: the source's byte, or, when the source was overwritten first, the
      byte that was just written there. */
  lemma ForwardFollows(mem: seq<byte>, dest: nat, src: nat, n: nat, k: nat)
    requires dest + n <= |mem| && src + n <= |mem| && k < n
    ensures var r := Forward(mem, dest, src, n);
            r[dest + k] == if dest <= src then mem[src + k] else r[src + k]
  {
    ForwardSettled(mem, dest, src, n, k + 1, dest + k);
    if dest <= src {
      ForwardSettled(mem, dest, src, k, 0, src + k);
    } else {
      ForwardSettled(mem, dest, src, n, k, src + k);
    }
  }

  /** The source repeats with distance d. */
  ghost predicate Periodic(mem: seq<byte>, src: nat, n: nat, d: nat)
    requires src + n <= |mem|
  {
    forall w :: src + d <= w < src + n ==> mem[w] == mem[w - d]
  }

  /** When an upward copy moves the bytes: exactly when the destination does not start after the source,
      or the source repeats with the distance between the two (as it does when they are disjoint). */
  lemma ForwardIff(mem: seq<byte>, dest: nat, src: nat, n: nat)
    requires dest + n <= |mem| && src + n <= |mem|
    ensures ForwardExact(mem, dest, src, n) <==> dest <= src || Periodic(mem, src, n, dest - src)
  {
    var r := Forward(mem, dest, src, n);
    forall w | 0 <= w < |mem| && !(dest <= w < dest + n)
      ensures r[w] == mem[w]
    {
      ForwardSettled(mem, dest, src, n, 0, w);
    }
    if dest <= src || Periodic(mem, src, n, dest - src) {
      forall w | dest <= w < dest + n
        ensures r[w] == mem[w - dest + src]
      {
        ForwardByte(mem, dest, src, n, w - dest);
      }
    } else {
      var d := dest - src;
      var w :| src + d <= w < src + n && mem[w] != mem[w - d];
      var k := w - src;
      ForwardFollows(mem, dest, src, n, k);
      assert r[dest..dest + n][k] == r[dest..dest + n][k - d];
      assert mem[src..src + n][k] != mem[src..src + n][k - d];
    }
  }

  lemma {:induction false} ForwardByte(mem: seq<byte>, dest: nat, src: nat, n: nat, k: nat)
    requires dest + n <= |mem| && src + n <= |mem| && k < n
    requires dest <= src || Periodic(mem, src, n, dest - src)
    ensures Forward(mem, dest, src, n)[dest + k] == mem[src + k]
  {
    ForwardFollows(mem, dest, src, n, k);
    if src < dest {
      var d := dest - src;
      if k < d {
        ForwardSettled(mem, dest, src, n, 0, src + k);
      } else {
        ForwardByte(mem, dest, src, n, k - d);
        assert mem[src + k] == mem[src + k - d];
      }
    }
  }
}
