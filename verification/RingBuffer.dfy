/** The circular character buffers of a terminal: 1024 slots, one of them always left empty. */
module RingBuffer {
  const SIZE: nat := 1024
  const CAPACITY: nat := SIZE - 1

  /** (i + 1) % SIZE for an index. */
  function Succ(i: nat): (r: nat)
    requires i < SIZE
    ensures r < SIZE
  {
    if i + 1 == SIZE then 0 else i + 1
  }

  /** The slot k places after i. */
  function Slot(i: nat, k: nat): (r: nat)
    requires i < SIZE && k <= SIZE
    ensures r < SIZE
  {
    if i + k < SIZE then i + k else i + k - SIZE
  }

  datatype Ring = Ring(buf: seq<char>, head: nat, tail: nat) {
    ghost predicate Valid() { |buf| == SIZE && head < SIZE && tail < SIZE }

    function Count(): (n: nat)
      requires Valid()
      ensures n <= CAPACITY && Slot(tail, n) == head
    {
      if head >= tail then head - tail else head + SIZE - tail
    }

    /** The characters waiting, oldest first. */
    function Contents(): (s: seq<char>)
      requires Valid()
      ensures |s| == Count()
      ensures forall k :: 0 <= k < |s| ==> s[k] == buf[Slot(tail, k)]
    {
      seq(Count(), k requires 0 <= k < Count() => buf[Slot(tail, k)])
    }

    predicate Empty() { head == tail }

    predicate Full()
      requires Valid()
    {
      Succ(head) == tail
    }

    function Advance(): (r: Ring)
      requires Valid()
      ensures r.Valid()
    {
      this.(head := Succ(head))
    }

    function Store(c: char): (r: Ring)
      requires Valid()
      ensures r.Valid()
    {
      this.(buf := buf[head := c])
    }

    /** Store and advance, unless the ring is full. */
    function Push(c: char): (r: Ring)
      requires Valid()
      ensures r.Valid()
    {
      if Full() then this else Store(c).Advance()
    }

    function Pop(): (r: Ring)
      requires Valid()
      ensures r.Valid()
    {
      this.(tail := Succ(tail))
    }
  }

  lemma EmptyAndFull(r: Ring)
    requires r.Valid()
    ensures r.Empty() <==> r.Contents() == []
    ensures r.Full() <==> |r.Contents()| == CAPACITY
  {
  }

  /** A store at the head touches no waiting character. */
  lemma StoreContents(r: Ring, c: char)
    requires r.Valid()
    ensures r.Store(c).Contents() == r.Contents()
  {
    assert r.Store(c).Count() == r.Count();
    assert forall k :: 0 <= k < r.Count() ==> Slot(r.tail, k) != r.head;
  }

  /** Advancing the head of a ring that is not full makes the stored character the newest one. */
  lemma AdvanceContents(r: Ring)
    requires r.Valid() && !r.Full()
    ensures r.Advance().Contents() == r.Contents() + [r.buf[r.head]]
  {
    assert r.Advance().Count() == r.Count() + 1;
  }

  lemma PushContents(r: Ring, c: char)
    requires r.Valid()
    ensures r.Push(c).Contents() == if |r.Contents()| == CAPACITY then r.Contents() else r.Contents() + [c]
  {
    EmptyAndFull(r);
    if !r.Full() {
      StoreContents(r, c);
      AdvanceContents(r.Store(c));
    }
  }

  lemma PopContents(r: Ring)
    requires r.Valid() && !r.Empty()
    ensures r.Contents() == [r.buf[r.tail]] + r.Pop().Contents()
  {
    assert r.Pop().Count() == r.Count() - 1;
    assert forall k :: 0 < k < r.Count() ==> Slot(r.tail, k) == Slot(Succ(r.tail), k - 1);
  }

  /** Pushing a text character by character, dropping what does not fit. */
  function PushAll(q: seq<char>, s: seq<char>): seq<char>
    decreases |s|
  {
    if s == [] then q else PushAll(if |q| >= CAPACITY then q else q + [s[0]], s[1..])
  }

  /** What arrives is the longest prefix that fits. */
  lemma {:induction false} PushAllPrefix(q: seq<char>, s: seq<char>)
    requires |q| <= CAPACITY
    ensures PushAll(q, s) == q + s[..if |s| <= CAPACITY - |q| then |s| else CAPACITY - |q|]
    decreases |s|
  {
    if s != [] {
      PushAllPrefix(if |q| >= CAPACITY then q else q + [s[0]], s[1..]);
    }
  }
}
