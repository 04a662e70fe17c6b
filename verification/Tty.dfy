/** A terminal: its three rings and the code on either side of them. Each method is one uninterrupted
    stretch; Pipeline has the same code memory access by memory access, in every interleaving. */
module Tty {
  import opened Words
  import opened Keyboard
  import opened RingBuffer
  import opened LineEditor

  const EDIT_SIZE: nat := 256

  /** The tasks that a terminal wakes: those that its three wait pointers name. */
  datatype Waiter = WorkerTask | ReaderTask | BackendTask

  class CharRing {
    const buf: array<char>
    var head: nat
    var tail: nat

    ghost predicate Valid()
      reads this
    {
      buf.Length == SIZE && head < SIZE && tail < SIZE
    }

    ghost function AsRing(): (r: Ring)
      requires Valid()
      reads this, buf
      ensures r.Valid()
    {
      Ring(buf[..], head, tail)
    }

    ghost function Contents(): (s: string)
      requires Valid()
      reads this, buf
      ensures |s| <= CAPACITY && (s == [] <==> head == tail)
    {
      AsRing().Contents()
    }

    constructor ()
      ensures Valid() && Contents() == [] && fresh(buf)
    {
      buf := new char[SIZE];
      head, tail := 0, 0;
    }

    /** The producer's stores: drop the character when the next head would meet the tail. */
    method Push(c: char) returns (stored: bool)
      requires Valid()
      modifies this`head, buf
      ensures Valid()
      ensures stored <==> |old(Contents())| < CAPACITY
      ensures Contents() == if stored then old(Contents()) + [c] else old(Contents())
    {
      ghost var r := AsRing();
      PushContents(r, c);
      EmptyAndFull(r);
      var next := Succ(head);
      stored := next != tail;
      if stored {
        buf[head] := c;
        head := next;
        assert AsRing() == r.Push(c);
      }
    }

    method Pop() returns (c: char)
      requires Valid() && Contents() != []
      modifies this`tail
      ensures Valid() && old(Contents()) == [c] + Contents()
    {
      PopContents(AsRing());
      c := buf[tail];
      tail := Succ(tail);
    }
  }

  class Terminal {
    const raw: CharRing
    const input: CharRing
    const output: CharRing
    const echo: bool
    var readWait: bool        // task_read_wait is set
    var backendWait: bool     // task_backend_wait is set
    var woken: set<Waiter>    // whom wake_task has been called for

    ghost predicate Valid()
      reads this, raw, input, output
    {
      && raw.Valid() && input.Valid() && output.Valid()
      && raw != input && input != output && raw != output
      && raw.buf != input.buf && input.buf != output.buf && raw.buf != output.buf
    }

    constructor (echo: bool)
      ensures Valid() && raw.Contents() == [] && input.Contents() == [] && output.Contents() == []
      ensures !readWait && !backendWait && woken == {}
    {
      readWait, backendWait, woken := false, false, {};
      raw := new CharRing();
      input := new CharRing();
      output := new CharRing();
      this.echo := echo;
    }

    /** kb_ring_handle_input: a key's character goes to the raw ring, if it has one and there is room,
        and then the worker is woken. */
    method HandleKey(keys: Translator, sc: byte)
      requires Valid()
      modifies keys, raw, raw.buf, this`woken
      ensures Valid() && keys.shift == ShiftAfter(old(keys.shift), sc)
      ensures var c := CharFor(old(keys.shift), sc);
              var stored := c != '\0' && |old(raw.Contents())| < CAPACITY;
              && raw.Contents() == old(raw.Contents()) + (if stored then [c] else [])
              && woken == old(woken) + if stored then {WorkerTask} else {}
    {
      var c := keys.Translate(sc);
      if c == '\0' { return; }
      var stored := raw.Push(c);
      if stored { woken := woken + {WorkerTask}; }
    }

    /** Whom a text wakes that goes to an output ring with these contents. */
    function WokenByOutput(before: string, text: string): set<Waiter>
      reads `backendWait
    {
      if backendWait && text != "" && |before| < CAPACITY then {BackendTask} else {}
    }

    /** tty_write */
    method Write(c: char)
      requires Valid()
      modifies output, output.buf, this`woken
      ensures Valid() && output.Contents() == PushAll(old(output.Contents()), [c])
      ensures woken == old(woken) + WokenByOutput(old(output.Contents()), [c])
    {
      var stored := output.Push(c);
      if stored && backendWait { woken := woken + {BackendTask}; }
      assert PushAll(old(output.Contents()), [c]) ==
             PushAll(if |old(output.Contents())| >= CAPACITY then old(output.Contents())
                     else old(output.Contents()) + [c], []);
    }

    /** tty_write_line */
    method WriteLine(text: string)
      requires Valid()
      modifies output, output.buf, this`woken
      ensures Valid() && output.Contents() == PushAll(old(output.Contents()), text)
      ensures woken == old(woken) + WokenByOutput(old(output.Contents()), text)
    {
      ghost var before, awake := output.Contents(), woken;
      for i := 0 to |text|
        invariant Valid() && output.Contents() == PushAll(before, text[..i])
        invariant woken == awake + WokenByOutput(before, text[..i])
      {
        WriteOneMore(before, text[..i], text[i]);
        assert text[..i + 1] == text[..i] + [text[i]];
        Write(text[i]);
      }
      assert text[..|text|] == text;
    }

    /** One more character of a text: whom it wakes has been woken by the text so far, if anyone. */
    lemma WriteOneMore(before: string, done: string, c: char)
      requires |before| <= CAPACITY
      ensures PushAll(before, done + [c]) == PushAll(PushAll(before, done), [c])
      ensures WokenByOutput(before, done + [c]) ==
              WokenByOutput(before, done) + WokenByOutput(PushAll(before, done), [c])
    {
      PushAllPrefix(before, done);
      PushAllPrefix(before, done + [c]);
      PushAllOne(PushAll(before, done), c);
    }

    /** The worker's echo: each character through tty_write, when echo is on. */
    method EchoText(text: string)
      requires Valid()
      modifies output, output.buf, this`woken
      ensures Valid()
      ensures output.Contents() == if echo then PushAll(old(output.Contents()), text) else old(output.Contents())
      ensures woken == old(woken) + if echo then WokenByOutput(old(output.Contents()), text) else {}
    {
      if echo { WriteLine(text); }
    }

    /** One round of the worker's inner loop: take a raw character and act on it. The edit buffer holds
        the line begun so far in its first `pos` places. */
    method WorkerStep(edit: array<char>, pos: nat) returns (pos': nat)
      requires Valid() && raw.Contents() != []
      requires edit.Length == EDIT_SIZE && pos <= LINE_MAX
      requires edit != raw.buf && edit != input.buf && edit != output.buf
      modifies edit, raw, input, input.buf, output, output.buf, this`woken
      ensures Valid() && pos' <= LINE_MAX
      ensures raw.Contents() == old(raw.Contents())[1..]
      ensures woken == old(woken) + WokenByStep(old(edit[..pos]), old(raw.Contents())[0], old(output.Contents()))
      ensures State(edit, pos') == Step(old(State(edit, pos)), old(raw.Contents())[0], echo)
    {
      var c := raw.Pop();
      if IsEnd(c) {
        EndLine(edit, pos, c);
        pos' := 0;
      } else {
        pos' := EditLine(edit, pos, c);
      }
    }

    /** The line begun so far and what waits in the rings on either side of the worker. */
    ghost function State(edit: array<char>, pos: nat): Worker
      requires input.Valid() && output.Valid() && pos <= edit.Length
      reads edit, input, input.buf, output, output.buf
    {
      Worker(edit[..pos], input.Contents(), output.Contents())
    }

    /** A line end: deliver the line, echo a newline, wake the reader. */
    method EndLine(edit: array<char>, pos: nat, c: char)
      requires Valid() && IsEnd(c) && edit.Length == EDIT_SIZE && pos <= LINE_MAX
      requires edit != input.buf && edit != output.buf
      modifies input, input.buf, output, output.buf, this`woken
      ensures Valid() && State(edit, 0) == Step(old(State(edit, pos)), c, echo)
      ensures woken == old(woken) + WokenByStep(edit[..pos], c, old(output.Contents()))
    {
      ghost var before, start := output.Contents(), State(edit, pos);
      EndStep(start, c);
      DeliverLine(edit, pos);
      EchoText("\n");
      ghost var awake := old(woken) + if echo then WokenByOutput(before, "\n") else {};
      assert woken == awake && edit[..0] == [];
      if readWait { woken := woken + {ReaderTask}; }
      assert woken == awake + if readWait then {ReaderTask} else {};
    }

    /** What a line end comes to. */
    lemma EndStep(w: Worker, c: char)
      requires IsEnd(c)
      ensures Step(w, c, echo) ==
              Worker([], PushAll(w.input, w.line + "\n"), if echo then PushAll(w.output, "\n") else w.output)
      ensures WokenByStep(w.line, c, w.output) ==
              (if echo then WokenByOutput(w.output, "\n") else {}) + if readWait then {ReaderTask} else {}
    {
    }

    /** Any other character: a backspace, or one that is kept while there is room. */
    method EditLine(edit: array<char>, pos: nat, c: char) returns (pos': nat)
      requires Valid() && !IsEnd(c) && edit.Length == EDIT_SIZE && pos <= LINE_MAX
      requires edit != input.buf && edit != output.buf
      modifies edit, output, output.buf, this`woken
      ensures Valid() && pos' <= LINE_MAX && State(edit, pos') == Step(old(State(edit, pos)), c, echo)
      ensures woken == old(woken) + WokenByStep(old(edit[..pos]), c, old(output.Contents()))
    {
      pos' := pos;
      ghost var line := edit[..pos];
      if c == BACKSPACE {
        if pos > 0 {
          pos' := pos - 1;
          assert edit[..pos'] == line[..pos'];
          EchoText([BACKSPACE, ' ', BACKSPACE]);
        }
      } else if pos < LINE_MAX {
        edit[pos] := c;
        pos' := pos + 1;
        assert edit[..pos'] == line + [c];
        EchoText([c]);
      }
    }

    /** Whom the worker wakes for one raw character: the backend for its echo, the reader at a line end. */
    function WokenByStep(line: string, c: char, before: string): set<Waiter>
      reads `backendWait, `readWait
    {
      (if echo then WokenByOutput(before, Echo(line, c)) else {}) + if IsEnd(c) && readWait then {ReaderTask} else {}
    }

    /** The critical section at a line end: every edited character, then a newline. */
    method DeliverLine(edit: array<char>, pos: nat)
      requires Valid() && edit.Length == EDIT_SIZE && pos <= LINE_MAX && edit != input.buf
      modifies input, input.buf
      ensures Valid() && input.Contents() == PushAll(old(input.Contents()), edit[..pos] + "\n")
    {
      ghost var line := edit[..pos] + "\n";
      for i := 0 to pos
        invariant Valid()
        invariant PushAll(input.Contents(), line[i..]) == PushAll(old(input.Contents()), line)
      {
        assert line[i..][1..] == line[i + 1..];
        var _ := input.Push(edit[i]);
      }
      assert line[pos..] == "\n" && "\n"[1..] == [];
      var _ := input.Push('\n');
    }

    /** A step wakes the waiting backend exactly when it adds output, the waiting reader exactly at a line
        end, and never the worker. */
    lemma NewOutputWakes(w: Worker, c: char)
      requires |w.output| <= CAPACITY
      ensures var woken := WokenByStep(w.line, c, w.output);
              && (BackendTask in woken <==> backendWait && Step(w, c, echo).output != w.output)
              && (ReaderTask in woken <==> readWait && (c == '\n' || c == '\r'))
              && WorkerTask !in woken
    {
      PushAllPrefix(w.output, Echo(w.line, c));
    }

    /** The worker between two waits: drain the raw ring, then wake the reader. Whoever should look at new
        input or output has been woken. */
    method Drain(edit: array<char>, pos: nat) returns (pos': nat)
      requires Valid() && edit.Length == EDIT_SIZE && pos <= LINE_MAX
      requires edit != raw.buf && edit != input.buf && edit != output.buf
      modifies edit, raw, input, input.buf, output, output.buf, this`woken
      ensures Valid() && pos' <= LINE_MAX && raw.Contents() == []
      ensures old(woken) <= woken && (readWait ==> ReaderTask in woken)
      ensures backendWait && output.Contents() != old(output.Contents()) ==> BackendTask in woken
      ensures State(edit, pos') == Steps(old(State(edit, pos)), old(raw.Contents()), echo)
      ensures var lines := Joined(Lines(old(edit[..pos]), old(raw.Contents())));
              input.Contents() == old(input.Contents()) + lines <==> |old(input.Contents())| + |lines| <= CAPACITY
    {
      ghost var start, typed, before, awake := State(edit, pos), raw.Contents(), output.Contents(), woken;
      pos' := pos;
      while raw.head != raw.tail
        invariant Valid() && pos' <= LINE_MAX && awake <= woken
        invariant backendWait && output.Contents() != before ==> BackendTask in woken
        invariant Steps(State(edit, pos'), raw.Contents(), echo) == Steps(start, typed, echo)
        decreases |raw.Contents()|
      {
        NewOutputWakes(State(edit, pos'), raw.Contents()[0]);
        pos' := WorkerStep(edit, pos');
      }
      StepsDeliver(start, typed, echo);
      if readWait { woken := woken + {ReaderTask}; }
    }
  }

  /** The reading side of an input ring, with the characters that other tasks will still deliver. */
  class Incoming {
    const ring: CharRing
    var pending: string

    ghost predicate Valid()
      reads this, ring
    {
      ring.Valid()
    }

    ghost function Stream(): string
      requires Valid()
      reads this, ring, ring.buf
    {
      ring.Contents() + pending
    }

    constructor (ring: CharRing, pending: string)
      requires ring.Valid()
      ensures Valid() && this.ring == ring && this.pending == pending
    {
      this.ring, this.pending := ring, pending;
    }

    /** Blocking until woken: by then some of the pending characters have arrived. */
    method Await()
      requires Valid() && ring.Contents() == [] && pending != []
      modifies this, ring, ring.buf
      ensures Valid() && Stream() == old(Stream()) && ring.Contents() != []
    {
      var k :| 1 <= k <= |pending| && k <= CAPACITY;
      ghost var before := Stream();
      for i := 0 to k
        invariant Valid() && |ring.Contents()| == i && |pending| >= k - i && Stream() == before
      {
        Arrive();
      }
    }

    /** One pending character arrives. */
    method Arrive()
      requires Valid() && |ring.Contents()| < CAPACITY && pending != []
      modifies this, ring, ring.buf
      ensures Valid() && |ring.Contents()| == |old(ring.Contents())| + 1
      ensures |pending| == |old(pending)| - 1 && Stream() == old(Stream())
    {
      ghost var waiting, c, rest := ring.Contents(), pending[0], pending[1..];
      assert waiting + pending == waiting + [c] + rest;
      var _ := ring.Push(pending[0]);
      pending := pending[1..];
    }

    /** tty_read: waits for a character and takes it. */
    method Read() returns (c: char)
      requires Valid() && Stream() != []
      modifies this, ring, ring.buf
      ensures Valid() && old(Stream()) == [c] + Stream()
    {
      while ring.head == ring.tail
        invariant Valid() && Stream() == old(Stream())
        decreases ring.head == ring.tail
      {
        assert ring.Contents() == [];
        Await();
      }
      c := ring.Pop();
    }

    /** One round of tty_read_line's loop: wait for a character and store it. */
    method ReadInto(buffer: array<char>, count: nat) returns (c: char)
      requires Valid() && buffer != ring.buf && count < buffer.Length && Stream() != []
      modifies this, ring, ring.buf, buffer
      ensures Valid() && old(Stream()) == [c] + Stream()
      ensures buffer[..count + 1] == old(buffer[..count]) + [c]
    {
      c := Read();
      buffer[count] := c;
    }

    /** That round keeps what the loop has read so far. */
    method ReadRound(buffer: array<char>, count: nat, ghost stream: string, ghost limit: nat)
      returns (done: bool)
      requires Valid() && buffer != ring.buf && count < limit < buffer.Length
      requires ReadSoFar(stream, limit, count, false, buffer[..count], Stream())
      modifies this, ring, ring.buf, buffer
      ensures Valid() && ReadSoFar(stream, limit, count + 1, done, buffer[..count + 1], Stream())
    {
      ghost var got, rest := buffer[..count], Stream();
      assert rest != [];
      var c := ReadInto(buffer, count);
      ReadOneMore(stream, limit, count, c, got, rest, Stream());
      done := c == '\n';
    }

    /** tty_read_line: returns when a newline or maxlen characters have come; the buffer also needs
        room for the terminator. */
    method ReadLine(buffer: array<char>, maxlen: int) returns (count: nat)
      requires Valid() && buffer != ring.buf && buffer.Length > 0 && buffer.Length > maxlen
      requires |Stream()| >= maxlen || '\n' in Stream()
      modifies this, ring, ring.buf, buffer
      ensures Valid()
      ensures count == LineLength(old(Stream()), if maxlen < 0 then 0 else maxlen)
      ensures buffer[..count] == old(Stream())[..count] && buffer[count] == '\0'
      ensures Stream() == old(Stream())[count..]
    {
      ghost var stream, limit := Stream(), if maxlen < 0 then 0 else maxlen;
      var done := false;
      count := 0;
      while count < maxlen && !done
        invariant Valid() && count <= limit < buffer.Length
        invariant ReadSoFar(stream, limit, count, done, buffer[..count], Stream())
        decreases limit - count
      {
        done := ReadRound(buffer, count, stream, limit);
        count := count + 1;
      }
      ReadDone(stream, limit, count, done, buffer[..count], Stream());
      Terminate(buffer, count);
    }

    /** The store behind the characters read. */
    method Terminate(buffer: array<char>, count: nat)
      requires Valid() && buffer != ring.buf && count < buffer.Length
      modifies buffer
      ensures Valid() && Stream() == old(Stream())
      ensures buffer[..count] == old(buffer[..count]) && buffer[count] == '\0'
    {
      buffer[count] := '\0';
    }
  }

  /** The state of tty_read_line's loop: `got` has been taken from the stream and `rest` is left. */
  ghost predicate ReadSoFar(stream: string, limit: nat, count: nat, done: bool, got: string, rest: string) {
    && count <= limit && count <= |stream| && got == stream[..count] && rest == stream[count..]
    && LineLength(stream, limit) == count + (if done then 0 else LineLength(rest, limit - count))
    && (done || |rest| >= limit - count || '\n' in rest)
  }

  /** What it comes to when the loop ends. */
  lemma ReadDone(stream: string, limit: nat, count: nat, done: bool, got: string, rest: string)
    requires ReadSoFar(stream, limit, count, done, got, rest) && (done || count >= limit)
    ensures count == LineLength(stream, limit) && got == stream[..count] && rest == stream[count..]
  {
  }

  /** One round of that loop. */
  lemma ReadOneMore(stream: string, limit: nat, count: nat, c: char, got: string, rest: string, rest': string)
    requires ReadSoFar(stream, limit, count, false, got, rest) && count < limit && rest == [c] + rest'
    ensures ReadSoFar(stream, limit, count + 1, c == '\n', got + [c], rest')
  {
    assert c == stream[count] && stream[..count + 1] == stream[..count] + [c];
    assert rest' == rest[1..] == stream[count + 1..];
  }

  lemma PushAllOne(q: string, c: char)
    ensures PushAll(q, [c]) == if |q| >= CAPACITY then q else q + [c]
  {
    assert [c][1..] == [];
  }
}
