/** The line discipline as a pure machine, and what a reader on the other side of it sees. */
module LineEditor {
  import opened Keyboard
  import opened RingBuffer

  const LINE_MAX: nat := 255

  predicate IsEnd(c: char) { c == '\n' || c == '\r' }

  /** Editing one character: backspace, line end, or a character kept while there is room. */
  function Edit(line: string, c: char): (r: string)
    ensures |line| <= LINE_MAX ==> |r| <= LINE_MAX
  {
    if c == BACKSPACE then (if line == [] then line else line[..|line| - 1])
    else if IsEnd(c) then []
    else if |line| < LINE_MAX then line + [c]
    else line
  }

  /** What the terminal echoes for a character. */
  function Echo(line: string, c: char): string {
    if c == BACKSPACE then (if line == [] then "" else [BACKSPACE, ' ', BACKSPACE])
    else if IsEnd(c) then "\n"
    else if |line| < LINE_MAX then [c]
    else ""
  }

  /** The worker's state: the line being edited and what waits in the two rings. */
  datatype Worker = Worker(line: string, input: string, output: string)

  /** One raw character: a line end delivers the line and a newline as far as they fit. */
  function Step(w: Worker, c: char, echo: bool): Worker {
    Worker(Edit(w.line, c),
           if IsEnd(c) then PushAll(w.input, w.line + "\n") else w.input,
           if echo then PushAll(w.output, Echo(w.line, c)) else w.output)
  }

  function Steps(w: Worker, raw: string, echo: bool): Worker
    decreases |raw|
  {
    if raw == [] then w else Steps(Step(w, raw[0], echo), raw[1..], echo)
  }

  // ----- The pure line editor

  /** The lines that a raw stream spells, given the line begun so far. */
  function Lines(line: string, raw: string): seq<string>
    decreases |raw|
  {
    if raw == [] then []
    else (if IsEnd(raw[0]) then [line] else []) + Lines(Edit(line, raw[0]), raw[1..])
  }

  /** The line begun when a raw stream ends. */
  function EditAll(line: string, raw: string): string
    decreases |raw|
  {
    if raw == "" then line else EditAll(Edit(line, raw[0]), raw[1..])
  }

  predicate Plain(line: string) {
    |line| <= LINE_MAX && forall c <- line :: c != BACKSPACE && !IsEnd(c)
  }

  /** Edited lines hold at most 255 characters and neither line ends nor backspaces. */
  lemma {:induction false} LinesPlain(line: string, raw: string)
    requires Plain(line)
    ensures forall l <- Lines(line, raw) :: Plain(l)
    decreases |raw|
  {
    if raw != [] { LinesPlain(Edit(line, raw[0]), raw[1..]); }
  }

  /** The lines as one stream, each followed by a newline. */
  function Joined(lines: seq<string>): string {
    if lines == [] then "" else lines[0] + "\n" + Joined(lines[1..])
  }

  // ----- The editor and its reader interleaved

  /** A raw character reaches the worker, or the reader takes the oldest input character. */
  datatype Event = Raw(c: char) | Take

  datatype Session = Session(line: string, input: string, taken: string, cut: bool)

  function React(s: Session, e: Event): Session {
    match e
    case Raw(c) =>
      var w := Step(Worker(s.line, s.input, ""), c, false);
      Session(w.line, w.input, s.taken, s.cut || (IsEnd(c) && |s.line + "\n"| > CAPACITY - |s.input|))
    case Take =>
      if s.input == [] then s else s.(input := s.input[1..], taken := s.taken + [s.input[0]])
  }

  function Play(s: Session, es: seq<Event>): Session
    decreases |es|
  {
    if es == [] then s else Play(React(s, es[0]), es[1..])
  }

  function RawOf(es: seq<Event>): string {
    if es == [] then "" else (if es[0].Raw? then [es[0].c] else "") + RawOf(es[1..])
  }

  /** Once cut, always cut. */
  lemma {:induction false} CutStays(s: Session, es: seq<Event>)
    ensures s.cut ==> Play(s, es).cut
    decreases |es|
  {
    if es != [] { CutStays(React(s, es[0]), es[1..]); }
  }

  function Seen(s: Session): string { s.taken + s.input }

  /** What the worker's steps deliver: exactly the edited lines, whenever and only when they fit behind
      what waits already. */
  lemma {:induction false} StepsDeliver(w: Worker, raw: string, echo: bool)
    requires |w.input| <= CAPACITY
    ensures |Steps(w, raw, echo).input| <= CAPACITY
    ensures Steps(w, raw, echo).input == w.input + Joined(Lines(w.line, raw)) <==>
            |w.input| + |Joined(Lines(w.line, raw))| <= CAPACITY
    decreases |raw|
  {
    if raw == "" {
      assert w.input + "" == w.input;
    } else {
      var c := raw[0];
      var next, rest := Step(w, c, echo), Lines(Edit(w.line, c), raw[1..]);
      if IsEnd(c) {
        PushAllPrefix(w.input, w.line + "\n");
        JoinedCons(w.line, rest);
        assert Lines(w.line, raw) == [w.line] + rest;
        LineFits(w.input, w.line + "\n", Joined(rest), next.input);
      } else {
        assert Lines(w.line, raw) == rest;
      }
      StepsDeliver(next, raw[1..], echo);
    }
  }

  /** A line behind what waits, and the other lines behind it. */
  lemma LineFits(input: string, line: string, rest: string, next: string)
    requires |input| <= CAPACITY
    requires next == input + line[..if |line| <= CAPACITY - |input| then |line| else CAPACITY - |input|]
    ensures |input| + |line| <= CAPACITY ==> next == input + line
    ensures input + line + rest == input + (line + rest)
    ensures |next| <= CAPACITY
  {
  }

  lemma JoinedCons(l: string, ls: seq<string>)
    ensures Joined([l] + ls) == l + "\n" + Joined(ls)
  {
    assert ([l] + ls)[1..] == ls;
  }

  /** One event: what is seen, followed by what is still to come, stays the same. */
  lemma ReactConserves(s: Session, e: Event, raw: string)
    requires |s.input| <= CAPACITY && !React(s, e).cut
    ensures var t := React(s, e);
            && |t.input| <= CAPACITY
            && Seen(t) + Joined(Lines(t.line, raw)) ==
               Seen(s) + Joined(Lines(s.line, (if e.Raw? then [e.c] else "") + raw))
  {
    match e
    case Take =>
      assert "" + raw == raw;
      assert Seen(React(s, e)) == Seen(s);
    case Raw(c) =>
      assert ([c] + raw)[1..] == raw;
      if IsEnd(c) {
        PushAllPrefix(s.input, s.line + "\n");
        assert React(s, e).input == s.input + (s.line + "\n");
        assert Lines(s.line, [c] + raw) == [s.line] + Lines([], raw);
        JoinedCons(s.line, Lines([], raw));
        Regroup(s.taken, s.input, s.line + "\n", Joined(Lines([], raw)));
      } else {
        assert Lines(s.line, [c] + raw) == Lines(React(s, e).line, raw);
      }
  }

  /** A session counts as cut from the first line end on whose line and newline do not all arrive. */
  lemma CutExact(s: Session, e: Event)
    requires |s.input| <= CAPACITY
    ensures React(s, e).cut <==> s.cut || (e.Raw? && IsEnd(e.c) && React(s, e).input != s.input + (s.line + "\n"))
  {
    if e.Raw? && IsEnd(e.c) { PushAllPrefix(s.input, s.line + "\n"); }
  }

  lemma Regroup(a: string, b: string, c: string, d: string)
    ensures a + (b + c) + d == a + b + (c + d)
  {
  }

  /** Whatever the interleaving, if no line was cut then what the reader has taken and what still
      waits are together exactly the edited lines, in order. */
  lemma {:induction false} NothingCutNothingLost(s: Session, es: seq<Event>)
    requires |s.input| <= CAPACITY && !Play(s, es).cut
    ensures Seen(Play(s, es)) == Seen(s) + Joined(Lines(s.line, RawOf(es)))
    decreases |es|
  {
    if es == [] {
      assert Lines(s.line, "") == [];
    } else {
      var t := React(s, es[0]);
      CutStays(t, es[1..]);
      ReactConserves(s, es[0], RawOf(es[1..]));
      NothingCutNothingLost(t, es[1..]);
    }
  }

  // ----- Reading lines

  /** Where tty_read_line stops in a stream: after the first newline, or after maxlen characters. */
  function LineLength(stream: string, maxlen: nat): (n: nat)
    ensures n <= |stream| && n <= maxlen
    ensures forall k :: 0 <= k < n - 1 ==> stream[k] != '\n'
    ensures n < |stream| && n < maxlen ==> n > 0 && stream[n - 1] == '\n'
  {
    if stream == [] || maxlen == 0 then 0
    else if stream[0] == '\n' then 1
    else
      var n := LineLength(stream[1..], maxlen - 1);
      assert forall k :: 0 < k < n ==> stream[k] == stream[1..][k - 1];
      n + 1
  }

  lemma LineLengthIs(stream: string, maxlen: nat, n: nat)
    requires 0 < n <= |stream| && n <= maxlen && (stream[n - 1] == '\n' || n == maxlen)
    requires forall k :: 0 <= k < n - 1 ==> stream[k] != '\n'
    ensures LineLength(stream, maxlen) == n
  {
  }

  /** Successive reads of at least 256 characters return exactly the lines that were edited. */
  function ReadLines(stream: string, maxlen: nat, count: nat): seq<string> {
    if count == 0 then []
    else
      var n := LineLength(stream, maxlen);
      [stream[..n]] + ReadLines(stream[n..], maxlen, count - 1)
  }

  lemma {:induction false} ReadLinesReturnsLines(lines: seq<string>, rest: string, maxlen: nat)
    requires maxlen >= LINE_MAX + 1 && forall l <- lines :: Plain(l)
    ensures var got := ReadLines(Joined(lines) + rest, maxlen, |lines|);
            && |got| == |lines|
            && forall k :: 0 <= k < |lines| ==> got[k] == lines[k] + "\n"
    decreases |lines|
  {
    if lines != [] {
      var l := lines[0];
      var after := Joined(lines[1..]) + rest;
      assert Joined(lines) + rest == l + "\n" + after;
      FirstLine(l, after, maxlen);
      ReadLinesReturnsLines(lines[1..], rest, maxlen);
    }
  }

  lemma FirstLine(l: string, after: string, maxlen: nat)
    requires Plain(l) && maxlen >= LINE_MAX + 1
    ensures var stream := l + "\n" + after;
            var n := LineLength(stream, maxlen);
            stream[..n] == l + "\n" && stream[n..] == after
  {
    var stream := l + "\n" + after;
    forall k | 0 <= k < |l|
      ensures stream[k] != '\n'
    {
      assert stream[k] == l[k] && l[k] in l;
    }
    LineLengthIs(stream, maxlen, |l| + 1);
  }

  /** From start-up: if nothing was cut, reading the stream line by line gives back the edited lines. */
  lemma TypedLinesComeBack(es: seq<Event>, maxlen: nat)
    requires maxlen >= LINE_MAX + 1 && !Play(Session("", "", "", false), es).cut
    ensures var lines := Lines("", RawOf(es));
            var got := ReadLines(Seen(Play(Session("", "", "", false), es)), maxlen, |lines|);
            && |got| == |lines|
            && forall k :: 0 <= k < |lines| ==> got[k] == lines[k] + "\n" && Plain(lines[k])
  {
    var lines := Lines("", RawOf(es));
    SeenFromStart(es);
    LinesPlain("", RawOf(es));
    ReadLinesReturnsLines(lines, "", maxlen);
    assert Joined(lines) + "" == Joined(lines);
  }

  lemma SeenFromStart(es: seq<Event>)
    requires !Play(Session("", "", "", false), es).cut
    ensures Seen(Play(Session("", "", "", false), es)) == Joined(Lines("", RawOf(es)))
  {
    NothingCutNothingLost(Session("", "", "", false), es);
    assert "" + Joined(Lines("", RawOf(es))) == Joined(Lines("", RawOf(es)));
  }
}
