/** From the keyboard interrupt to the reading task: the raw ring, the worker between the rings, and the
    input ring, memory access by memory access, in every order in which they can interleave. */
module Pipeline {
  import opened RingBuffer
  import opened RingProtocol
  import opened LineEditor
  import opened InputRing

  /** `line` is the worker's edit buffer. */
  datatype Pipe = Pipe(raw: Sys, input: Sys, line: string)

  ghost predicate Started(p: Pipe) {
    && Init(p.raw) && p.raw.writers == map[] && Init(p.input) && Solo(p.input) && p.line == ""
  }

  // ----- Steps

  /** The worker moves on the raw ring while it has nothing to deliver. Having released the ring's lock it
      edits the character; a line end makes it start a delivery. */
  ghost predicate Work(p: Pipe, q: Pipe) {
    && Solo(p.input) && p.input.writers[WORKER] == Away && ReaderStep(p.raw, q.raw)
    && if p.raw.reader.Unlocking? && p.raw.consumed != "" then
         var c := p.raw.consumed[|p.raw.consumed| - 1];
         && q.line == Edit(p.line, c)
         && if IsEnd(c) then WriterStep(p.input, q.input, WORKER, p.line + "\n") else q.input == p.input
       else q == p.(raw := q.raw)
  }

  /** The next memory access of a delivery. */
  ghost predicate Deliver(p: Pipe, q: Pipe) {
    && Solo(p.input) && p.input.writers[WORKER] != Away
    && WriterStep(p.input, q.input, WORKER, "") && q == p.(input := q.input)
  }

  ghost predicate Moves(p: Pipe, q: Pipe) {
    || (exists c :: IrqStep(p.raw, q.raw, c) && q == p.(raw := q.raw))  // a key
    || Work(p, q)
    || Deliver(p, q)
    || (ReaderStep(p.input, q.input) && q == p.(input := q.input))      // the reading task
  }

  ghost predicate IsPipe(run: seq<Pipe>) {
    && |run| > 0 && Started(run[0])
    && forall i :: 0 <= i < |run| - 1 ==> Moves(run[i], run[i + 1])
  }

  // ----- The session behind a run

  /** The raw characters that the worker has acted on. */
  function Done(p: Pipe): string {
    var s := p.raw.consumed;
    if p.raw.reader.Unlocking? && s != "" then s[..|s| - 1] else s
  }

  /** Some delivery in the first k steps is cut. */
  ghost predicate AnyPipeCut(run: seq<Pipe>, k: nat)
    requires k < |run|
  {
    k > 0 && (AnyPipeCut(run, k - 1) || Cuts(run[k - 1].input, run[k].input))
  }

  /** The worker is between a line end and getting the input ring's lock. */
  ghost predicate LineWaits(p: Pipe, t: Session, raw: string)
    requires Solo(p.input) && p.input.writers[WORKER].Spinning?
  {
    && p.input.writers[WORKER].rest == t.line + "\n" && p.line == ""
    && Done(p) != "" && IsEnd(Done(p)[|Done(p)| - 1]) && raw == Done(p)[..|Done(p)| - 1]
  }

  /** The events spell what the worker has acted on, except for a line end whose line still waits for the
      lock, and lead to a session with the worker's line that shows the input ring. */
  ghost predicate Linked(p: Pipe, es: seq<Event>) {
    && Inv(p.raw) && p.raw.writers == map[] && Inv(p.input) && Solo(p.input)
    && (p.raw.reader.Unlocking? ==> p.raw.consumed != "")
    && (p.input.writers[WORKER] != Away ==> p.raw.reader.Testing?)
    && Shows(p.input, Play(START, es))
    && (if p.input.writers[WORKER].Spinning? then LineWaits(p, Play(START, es), RawOf(es))
        else Play(START, es).line == p.line && RawOf(es) == Done(p))
  }

  lemma {:induction false} PipeProjects(run: seq<Pipe>, k: nat) returns (es: seq<Event>)
    requires IsPipe(run) && k < |run|
    ensures Linked(run[k], es) && (Play(START, es).cut <==> AnyPipeCut(run, k))
  {
    if k == 0 {
      InitInv(run[0].raw);
      InitInv(run[0].input);
      EmptyAndFull(run[0].input.ring);
      es := [];
    } else {
      var before := PipeProjects(run, k - 1);
      assert Moves(run[k - 1], run[k - 1 + 1]);
      es := MoveProjects(run[k - 1], run[k], before);
    }
  }

  lemma MoveProjects(p: Pipe, q: Pipe, before: seq<Event>) returns (es: seq<Event>)
    requires Linked(p, before) && Moves(p, q)
    ensures Linked(q, es)
    ensures Play(START, es).cut <==> Play(START, before).cut || Cuts(p.input, q.input)
  {
    if c :| IrqStep(p.raw, q.raw, c) && q == p.(raw := q.raw) {
      IrqKeeps(p.raw, q.raw, c);
      es := before;
    } else if Deliver(p, q) {
      es := DeliverProjects(p, q, before);
    } else if Work(p, q) {
      es := WorkProjects(p, q, before);
    } else {
      es := ReadProjects(p, q, before);
    }
  }

  lemma ReadProjects(p: Pipe, q: Pipe, before: seq<Event>) returns (es: seq<Event>)
    requires Linked(p, before) && ReaderStep(p.input, q.input) && q == p.(input := q.input)
    ensures Linked(q, es) && !Cuts(p.input, q.input) && Play(START, es).cut == Play(START, before).cut
  {
    ReaderKeeps(p.input, q.input);
    ReaderShows(p.input, q.input, Play(START, before));
    es := before;
    if p.input.reader.Taking? {
      PlaySnoc(START, before, Take);
      es := before + [Take];
      assert RawOf(es) == RawOf(before);
    }
  }

  lemma DeliverProjects(p: Pipe, q: Pipe, before: seq<Event>) returns (es: seq<Event>)
    requires Linked(p, before) && Deliver(p, q)
    ensures Linked(q, es)
    ensures Play(START, es).cut <==> Play(START, before).cut || Cuts(p.input, q.input)
  {
    var t := Play(START, before);
    WriterKeeps(p.input, q.input, WORKER, "");
    WriterShows(p.input, q.input, "", t);
    es := before;
    if Acquires(p.input, q.input) {
      var c := Done(p)[|Done(p)| - 1];
      AcquireShows(p.input, q.input, t, c);
      PlaySnoc(START, before, Raw(c));
      es := before + [Raw(c)];
      assert Done(p)[..|Done(p)| - 1] + [c] == Done(p);
    }
  }

  lemma WorkProjects(p: Pipe, q: Pipe, before: seq<Event>) returns (es: seq<Event>)
    requires Linked(p, before) && Work(p, q)
    ensures Linked(q, es) && !Cuts(p.input, q.input) && Play(START, es).cut == Play(START, before).cut
  {
    ReaderKeeps(p.raw, q.raw);
    es := before;
    if p.raw.reader.Unlocking? {
      var c := p.raw.consumed[|p.raw.consumed| - 1];
      DoneNext(p, q);
      if IsEnd(c) {
        LineEnds(p, q, before);
      } else {
        PlaySnoc(START, before, Raw(c));
        es := before + [Raw(c)];
      }
    } else if p.raw.reader.Taking? {
      assert q.raw.consumed[..|p.raw.consumed|] == p.raw.consumed;
    }
  }

  /** Acting on the character that was taken last. */
  lemma DoneNext(p: Pipe, q: Pipe)
    requires p.raw.reader.Unlocking? && p.raw.consumed != ""
    requires q.raw.consumed == p.raw.consumed && q.raw.reader.Testing?
    ensures var c := p.raw.consumed[|p.raw.consumed| - 1];
            Done(q) == Done(p) + [c] && Done(q)[|Done(q)| - 1] == c && Done(q)[..|Done(q)| - 1] == Done(p)
  {
  }

  /** A line end: its line starts to wait for the lock. */
  lemma LineEnds(p: Pipe, q: Pipe, es: seq<Event>)
    requires Linked(p, es) && Work(p, q) && p.raw.reader.Unlocking? && Inv(q.raw)
    requires IsEnd(p.raw.consumed[|p.raw.consumed| - 1])
    ensures Linked(q, es) && !Cuts(p.input, q.input)
  {
    DoneNext(p, q);
    WriterKeeps(p.input, q.input, WORKER, p.line + "\n");
    WriterShows(p.input, q.input, p.line + "\n", Play(START, es));
  }

  /** End to end, over every interleaving of key interrupts, worker and reading task: whenever no line is
      on its way, and unless a delivery was cut, what the reader has taken and what waits for it are
      together exactly the lines that the pure editor makes of the raw characters acted on so far; and
      those are the first of the characters that the interrupt accepted, in order. */
  lemma TypedLinesArrive(run: seq<Pipe>, k: nat)
    requires IsPipe(run) && k < |run|
    ensures Solo(run[k].input) && Done(run[k]) <= run[k].raw.accepted
    ensures run[k].input.writers[WORKER] == Away && !AnyPipeCut(run, k) ==>
              run[k].input.consumed + run[k].input.ring.Contents() == Joined(Lines("", Done(run[k])))
  {
    var es := PipeProjects(run, k);
    DoneAccepted(run[k]);
    if !Play(START, es).cut {
      NothingCutNothingLost(START, es);
      assert Seen(START) == "";
      assert "" + Joined(Lines("", RawOf(es))) == Joined(Lines("", RawOf(es)));
    }
  }

  lemma DoneAccepted(p: Pipe)
    requires Inv(p.raw)
    ensures Done(p) <= p.raw.accepted
  {
    assert p.raw.consumed <= p.raw.consumed + p.raw.ring.Contents();
  }
}
