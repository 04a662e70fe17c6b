/** One terminal ring shared by tasks and an interrupt, memory access by memory access. Writers hold
    the ring's spinlock while they push a text; the single reader tests for data before it takes the
    lock; the interrupt pushes without it, and only on a ring that has no writers. */
module RingProtocol {
  import opened RingBuffer

  /** Where a writer is: the text still to push is `rest`. */
  datatype Writer =
    | Away
    | Spinning(rest: seq<char>)            // the xchg loop of spinlock_acquire
    | Checking(rest: seq<char>)            // about to compare the next head with the tail
    | Storing(rest: seq<char>, next: nat)  // about to store at the head
    | Moving(rest: seq<char>, next: nat)   // about to publish the new head
    | Leaving                              // about to clear the lock
  {
    predicate Inside() { Checking? || Storing? || Moving? || Leaving? }
  }

  datatype Reader =
    | Testing          // about to compare head and tail
    | Acquiring        // saw data, in the xchg loop
    | Fetching         // about to read at the tail
    | Taking(c: char)  // about to move the tail
    | Unlocking
  {
    predicate Inside() { Fetching? || Taking? || Unlocking? }
  }

  datatype Sys = Sys(
    ring: Ring,
    locked: bool,
    writers: map<nat, Writer>,
    reader: Reader,
    accepted: seq<char>,   // characters whose push was published, in order
    consumed: seq<char>)   // characters taken by the reader, in order

  ghost predicate Init(s: Sys) {
    && s.ring.Valid() && s.ring.Empty() && !s.locked
    && (forall w <- s.writers :: s.writers[w] == Away)
    && s.reader == Testing && s.accepted == [] && s.consumed == []
  }

  // ----- Steps

  /** The next memory access of writer w; `text` is what an idle writer starts to push. */
  ghost predicate WriterStep(s: Sys, t: Sys, w: nat, text: seq<char>) {
    && w in s.writers && s.ring.Valid()
    && match s.writers[w]
       case Away =>
         t == s.(writers := s.writers[w := Spinning(text)])
       case Spinning(rest) =>
         if s.locked then t == s else t == s.(locked := true, writers := s.writers[w := Checking(rest)])
       case Checking(rest) =>
         if rest == [] then t == s.(writers := s.writers[w := Leaving])
         else if s.ring.Full() then t == s.(writers := s.writers[w := Checking(rest[1..])])
         else t == s.(writers := s.writers[w := Storing(rest, Succ(s.ring.head))])
       case Storing(rest, next) =>
         rest != [] && t == s.(ring := s.ring.Store(rest[0]), writers := s.writers[w := Moving(rest, next)])
       case Moving(rest, next) =>
         && rest != []
         && t == s.(ring := s.ring.(head := next), accepted := s.accepted + [rest[0]],
                    writers := s.writers[w := Checking(rest[1..])])
       case Leaving =>
         t == s.(locked := false, writers := s.writers[w := Away])
  }

  ghost predicate ReaderStep(s: Sys, t: Sys) {
    && s.ring.Valid()
    && match s.reader
       case Testing =>
         t == if s.ring.Empty() then s else s.(reader := Acquiring)
       case Acquiring =>
         t == if s.locked then s else s.(locked := true, reader := Fetching)
       case Fetching =>
         t == s.(reader := Taking(s.ring.buf[s.ring.tail]))
       case Taking(c) =>
         t == s.(ring := s.ring.Pop(), consumed := s.consumed + [c], reader := Unlocking)
       case Unlocking =>
         t == s.(locked := false, reader := Testing)
  }

  /** The keyboard interrupt runs to completion between two task steps. */
  ghost predicate IrqStep(s: Sys, t: Sys, c: char) {
    && s.ring.Valid() && s.writers == map[]
    && t == s.(ring := s.ring.Push(c), accepted := s.accepted + if s.ring.Full() then [] else [c])
  }

  ghost predicate Next(s: Sys, t: Sys) {
    || (exists w, text :: WriterStep(s, t, w, text))
    || ReaderStep(s, t)
    || (exists c :: IrqStep(s, t, c))
  }

  // ----- The invariant

  /** At most one task is past its acquire and not yet released, and then the lock is set. */
  ghost predicate Exclusive(s: Sys) {
    && (forall v <- s.writers, w <- s.writers :: s.writers[v].Inside() && s.writers[w].Inside() ==> v == w)
    && (forall w <- s.writers :: s.writers[w].Inside() ==> !s.reader.Inside())
    && (s.locked <==> s.reader.Inside() || exists w <- s.writers :: s.writers[w].Inside())
  }

  ghost predicate WriterKnows(s: Sys, w: Writer)
    requires s.ring.Valid()
  {
    match w
    case Storing(rest, next) => rest != [] && next == Succ(s.ring.head) && !s.ring.Full()
    case Moving(rest, next) =>
      rest != [] && next == Succ(s.ring.head) && !s.ring.Full() && s.ring.buf[s.ring.head] == rest[0]
    case _ => true
  }

  ghost predicate ReaderKnows(s: Sys)
    requires s.ring.Valid()
  {
    && (s.reader.Acquiring? || s.reader.Fetching? || s.reader.Taking? ==> !s.ring.Empty())
    && (s.reader.Taking? ==> s.reader.c == s.ring.buf[s.ring.tail])
  }

  ghost predicate Inv(s: Sys) {
    && s.ring.Valid()
    && Exclusive(s)
    && (forall w <- s.writers :: WriterKnows(s, s.writers[w]))
    && ReaderKnows(s)
    && s.accepted == s.consumed + s.ring.Contents()
  }

  lemma InitInv(s: Sys)
    requires Init(s)
    ensures Inv(s)
  {
    EmptyAndFull(s.ring);
  }

  lemma WriterExclusive(s: Sys, t: Sys, w: nat, text: seq<char>)
    requires Exclusive(s) && WriterStep(s, t, w, text)
    ensures Exclusive(t)
  {
    if s.writers[w].Inside() {
      assert s.locked;
      if t.writers[w].Inside() { assert t.locked; }
    } else if t.writers[w].Inside() {
      assert !s.locked && t.locked;
    } else {
      assert forall v <- t.writers :: t.writers[v].Inside() == s.writers[v].Inside();
      if s.locked && !s.reader.Inside() {
        var v :| v in s.writers && s.writers[v].Inside();
        assert t.writers[v].Inside();
      }
    }
  }

  lemma WriterKeeps(s: Sys, t: Sys, w: nat, text: seq<char>)
    requires Inv(s) && WriterStep(s, t, w, text)
    ensures Inv(t)
  {
    WriterExclusive(s, t, w, text);
    match s.writers[w]
    case Storing(rest, next) =>
      StoreContents(s.ring, rest[0]);
    case Moving(rest, next) =>
      AdvanceContents(s.ring);
      assert t.ring == s.ring.Advance();
      EmptyAndFull(t.ring);
    case _ =>
  }

  lemma ReaderKeeps(s: Sys, t: Sys)
    requires Inv(s) && ReaderStep(s, t)
    ensures Inv(t)
  {
    if s.reader.Taking? {
      PopContents(s.ring);
      assert t.accepted == t.consumed + t.ring.Contents();
    }
  }

  lemma IrqKeeps(s: Sys, t: Sys, c: char)
    requires Inv(s) && IrqStep(s, t, c)
    ensures Inv(t)
  {
    PushContents(s.ring, c);
    EmptyAndFull(s.ring);
  }

  lemma NextInv(s: Sys, t: Sys)
    requires Inv(s) && Next(s, t)
    ensures Inv(t)
  {
    if w, text :| WriterStep(s, t, w, text) {
      WriterKeeps(s, t, w, text);
    } else if ReaderStep(s, t) {
      ReaderKeeps(s, t);
    } else {
      var c :| IrqStep(s, t, c);
      IrqKeeps(s, t, c);
    }
  }

  /** Over every interleaving: accepted input is consumed first in, first out, without loss or
      duplication, at most 1023 characters wait, and critical sections exclude each other. */
  lemma {:induction false} RingSafety(run: seq<Sys>, k: nat)
    requires |run| > 0 && Init(run[0]) && k < |run|
    requires forall i :: 0 <= i < |run| - 1 ==> Next(run[i], run[i + 1])
    ensures run[k].ring.Valid() && run[k].accepted == run[k].consumed + run[k].ring.Contents()
    ensures |run[k].ring.Contents()| <= CAPACITY
    ensures Exclusive(run[k])
  {
    RunInv(run, k);
  }

  lemma {:induction false} RunInv(run: seq<Sys>, k: nat)
    requires |run| > 0 && Init(run[0]) && k < |run|
    requires forall i :: 0 <= i < |run| - 1 ==> Next(run[i], run[i + 1])
    ensures Inv(run[k])
  {
    if k == 0 {
      InitInv(run[0]);
    } else {
      RunInv(run, k - 1);
      NextInv(run[k - 1], run[k]);
    }
  }

  // ----- Progress

  /** How many memory accesses a writer has still to make inside its critical section, at most. */
  function Left(w: Writer): nat {
    match w
    case Checking(rest) => 3 * |rest| + 2
    case Storing(rest, _) => 3 * |rest| + 1
    case Moving(rest, _) => 3 * |rest|
    case Leaving => 1
    case _ => 0
  }

  /** Every access of a writer inside brings it nearer to its end, and there it has cleared the lock; it can
      always make the next one. */
  lemma WriterProgress(s: Sys, w: nat, text: seq<char>) returns (t: Sys)
    requires Inv(s) && w in s.writers && s.writers[w].Inside()
    ensures WriterStep(s, t, w, text) && w in t.writers && Left(t.writers[w]) < Left(s.writers[w])
    ensures Left(t.writers[w]) == 0 ==> t.writers[w] == Away && !t.locked
  {
    assert WriterKnows(s, s.writers[w]);
    match s.writers[w]
    case Checking(rest) =>
      t := s.(writers := s.writers[w := if rest == [] then Leaving else if s.ring.Full() then Checking(rest[1..])
                                        else Storing(rest, Succ(s.ring.head))]);
    case Storing(rest, next) =>
      t := s.(ring := s.ring.Store(rest[0]), writers := s.writers[w := Moving(rest, next)]);
    case Moving(rest, next) =>
      t := s.(ring := s.ring.(head := next), accepted := s.accepted + [rest[0]],
              writers := s.writers[w := Checking(rest[1..])]);
    case Leaving =>
      t := s.(locked := false, writers := s.writers[w := Away]);
  }

  /** Each access is the only one that the writer can make. */
  lemma WriterDetermined(s: Sys, t: Sys, u: Sys, w: nat, text: seq<char>)
    requires WriterStep(s, t, w, text) && WriterStep(s, u, w, text)
    ensures t == u
  {
  }

  /** Running on its own from inside, a writer leaves and clears the lock after at most Left accesses:
      3n + 2 for a text of n characters. */
  lemma {:induction false} WriterLeaves(s: Sys, w: nat, text: seq<char>) returns (run: seq<Sys>)
    requires Inv(s) && w in s.writers && s.writers[w].Inside()
    ensures 1 < |run| <= Left(s.writers[w]) + 1 && run[0] == s
    ensures forall i :: 0 <= i < |run| - 1 ==> WriterStep(run[i], run[i + 1], w, text)
    ensures var last := run[|run| - 1]; Inv(last) && w in last.writers && last.writers[w] == Away && !last.locked
    decreases Left(s.writers[w])
  {
    var t := WriterProgress(s, w, text);
    WriterKeeps(s, t, w, text);
    if t.writers[w].Inside() {
      var rest := WriterLeaves(t, w, text);
      run := [s] + rest;
      forall i | 0 <= i < |run| - 1
        ensures WriterStep(run[i], run[i + 1], w, text)
      {
        assert i > 0 ==> run[i] == rest[i - 1];
        assert run[i + 1] == rest[i];
      }
    } else {
      run := [s, t];
    }
  }

  /** Once the reader has the lock it takes the oldest waiting character and clears the lock in three
      accesses. */
  lemma ReaderLeaves(s: Sys, t: Sys, u: Sys, v: Sys)
    requires Inv(s) && s.reader.Fetching? && ReaderStep(s, t) && ReaderStep(t, u) && ReaderStep(u, v)
    ensures v.reader == Testing && !v.locked && s.ring.Contents() != []
    ensures v.consumed == s.consumed + [s.ring.Contents()[0]] && v.ring.Contents() == s.ring.Contents()[1..]
    ensures v.accepted == s.accepted
  {
    EmptyAndFull(s.ring);
    PopContents(s.ring);
  }

  /** A free lock goes to whoever tries it next. */
  lemma FreeLockTaken(s: Sys, t: Sys, w: nat, text: seq<char>)
    requires Inv(s) && !s.locked
    ensures w in s.writers && s.writers[w].Spinning? && WriterStep(s, t, w, text) ==>
              t.locked && w in t.writers && t.writers[w] == Checking(s.writers[w].rest)
    ensures s.reader.Acquiring? && ReaderStep(s, t) ==> t.locked && t.reader == Fetching
  {
  }

  /** The interrupt's character is accepted exactly when fewer than 1023 are waiting. */
  lemma IrqExact(s: Sys, t: Sys, c: char)
    requires Inv(s) && IrqStep(s, t, c)
    ensures var room := |s.ring.Contents()| < CAPACITY;
            && t.accepted == s.accepted + (if room then [c] else [])
            && t.ring.Valid() && t.ring.Contents() == s.ring.Contents() + if room then [c] else []
  {
    PushContents(s.ring, c);
    EmptyAndFull(s.ring);
  }

  /** A character is dropped only when 1023 characters are waiting. */
  lemma DroppedOnlyWhenFull(s: Sys, t: Sys, w: nat, text: seq<char>)
    requires Inv(s) && WriterStep(s, t, w, text) && s.writers[w].Checking? && s.writers[w].rest != []
    requires t.writers[w].Checking?
    ensures |s.ring.Contents()| == CAPACITY && t.ring == s.ring && t.accepted == s.accepted
  {
    EmptyAndFull(s.ring);
  }
}
