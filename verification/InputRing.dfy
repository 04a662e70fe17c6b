/** The input ring of a terminal, memory access by memory access, seen as the line editor's session: a
    delivery counts from the moment its writer gets the lock, a character read from the moment the tail
    moves. */
module InputRing {
  import opened RingBuffer
  import opened RingProtocol
  import opened LineEditor
  import opened LineLaws

  const WORKER: nat := 0                                 // the one writer
  const START: Session := Session("", "", "", false)

  ghost predicate Solo(s: Sys) {
    s.ring.Valid() && s.writers.Keys == {WORKER}
  }

  /** What the writer has still to push once it has the lock. */
  function Pending(w: Writer): string {
    match w
    case Checking(rest) => rest
    case Storing(rest, _) => rest
    case Moving(rest, _) => rest
    case _ => ""
  }

  /** The session has taken what the reader has, and its input is what the ring will hold when the
      delivery under way is over. */
  ghost predicate Shows(s: Sys, t: Session)
    requires Solo(s)
  {
    t.taken == s.consumed && t.input == PushAll(s.ring.Contents(), Pending(s.writers[WORKER]))
  }

  /** The writer gets the lock in this step. */
  ghost predicate Acquires(s: Sys, u: Sys) {
    Solo(s) && Solo(u) && s.writers[WORKER].Spinning? && u.writers[WORKER].Checking?
  }

  /** The delivery that starts in this step does not fit behind what the ring holds. */
  ghost predicate Cuts(s: Sys, u: Sys) {
    Acquires(s, u) && |s.writers[WORKER].rest| > CAPACITY - |s.ring.Contents()|
  }

  /** So the ring will not hold all of it when its delivery is over. */
  lemma CutsExact(s: Sys, u: Sys)
    requires Inv(s) && Solo(s)
    ensures Cuts(s, u) <==>
            Acquires(s, u) && PushAll(s.ring.Contents(), s.writers[WORKER].rest) !=
                              s.ring.Contents() + s.writers[WORKER].rest
  {
    if Acquires(s, u) { PushAllPrefix(s.ring.Contents(), s.writers[WORKER].rest); }
  }

  // ----- One memory access

  lemma PushAllFull(q: string, s: string)
    requires s != ""
    ensures |q| >= CAPACITY ==> PushAll(q, s) == PushAll(q, s[1..])
    ensures |q| < CAPACITY ==> PushAll(q, s) == PushAll(q + [s[0]], s[1..])
  {
  }

  lemma WriterShows(s: Sys, u: Sys, text: string, t: Session)
    requires Inv(s) && Inv(u) && Solo(s) && WriterStep(s, u, WORKER, text) && Shows(s, t)
    ensures Solo(u) && (!Acquires(s, u) ==> Shows(u, t))
  {
    match s.writers[WORKER]
    case Checking(rest) =>
      EmptyAndFull(s.ring);
      if rest != [] { PushAllFull(s.ring.Contents(), rest); }
    case Storing(rest, next) =>
      StoreContents(s.ring, rest[0]);
    case Moving(rest, next) =>
      assert WriterKnows(s, s.writers[WORKER]);
      EmptyAndFull(s.ring);
      AdvanceContents(s.ring);
      assert u.ring == s.ring.Advance();
      PushAllFull(s.ring.Contents(), rest);
    case _ =>
  }

  /** With the lock, the whole text counts as pushed. */
  lemma AcquireShows(s: Sys, u: Sys, t: Session, c: char)
    requires Inv(s) && Inv(u) && Solo(s) && WriterStep(s, u, WORKER, "") && Acquires(s, u) && Shows(s, t)
    requires IsEnd(c) && s.writers[WORKER].rest == t.line + "\n"
    ensures Solo(u) && Shows(u, React(t, Raw(c))) && React(t, Raw(c)).line == ""
    ensures React(t, Raw(c)).cut <==> t.cut || Cuts(s, u)
  {
  }

  lemma ReaderShows(s: Sys, u: Sys, t: Session)
    requires Inv(s) && Inv(u) && Solo(s) && ReaderStep(s, u) && Shows(s, t)
    ensures Solo(u) && Shows(u, if s.reader.Taking? then React(t, Take) else t)
  {
    if s.reader.Taking? {
      assert s.reader.Inside() && !s.writers[WORKER].Inside();
      assert t.input == s.ring.Contents();
      PopContents(s.ring);
    }
  }

  // ----- Event lists

  /** Adding a sequence is adding all but its last element, and then that. */
  lemma AddLast<T>(a: seq<T>, b: seq<T>)
    requires b != []
    ensures a + b == a + b[..|b| - 1] + [b[|b| - 1]] && b == b[..|b| - 1] + [b[|b| - 1]]
  {
  }

  lemma TailOfSnoc<T>(a: seq<T>, x: T)
    requires a != []
    ensures (a + [x])[0] == a[0] && (a + [x])[1..] == a[1..] + [x]
  {
  }

  lemma {:induction false} PlaySnoc(t: Session, es: seq<Event>, e: Event)
    ensures Play(t, es + [e]) == React(Play(t, es), e)
    ensures RawOf(es + [e]) == RawOf(es) + if e.Raw? then [e.c] else ""
    decreases |es|
  {
    if es == [] {
      assert es + [e] == [e] && [e][1..] == [];
    } else {
      TailOfSnoc(es, e);
      PlaySnoc(React(t, es[0]), es[1..], e);
    }
  }

  /** The events of typing a plain text. */
  function Keys(text: string): seq<Event> {
    if text == "" then [] else Keys(text[..|text| - 1]) + [Raw(text[|text| - 1])]
  }

  lemma {:induction false} KeysPlay(t: Session, es: seq<Event>, text: string)
    requires Play(t, es).line == "" && Plain(text)
    ensures Play(t, es + Keys(text)) == Play(t, es).(line := text)
    ensures RawOf(es + Keys(text)) == RawOf(es) + text
    decreases |text|
  {
    if text == "" {
      assert es + Keys(text) == es;
    } else {
      var init := text[..|text| - 1];
      KeysPlay(t, es, init);
      var c := text[|text| - 1];
      PlaySnoc(t, es + Keys(init), Raw(c));
      assert es + Keys(text) == es + Keys(init) + [Raw(c)];
      AddLast(RawOf(es), text);
    }
  }

  lemma LinesSnoc(line: string, raw: string, c: char)
    ensures Lines(line, raw + [c]) == Lines(line, raw) + if IsEnd(c) then [EditAll(line, raw)] else []
    ensures EditAll(line, raw + [c]) == Edit(EditAll(line, raw), c)
  {
    LinesSplit(line, raw, [c]);
    KeyAlone(EditAll(line, raw), c);
  }

  lemma TextEdits(line: string, raw: string, text: string)
    requires Plain(text) && EditAll(line, raw) == ""
    ensures EditAll(line, raw + text) == text && Lines(line, raw + text) == Lines(line, raw)
  {
    LinesSplit(line, raw, text);
    TextStands(text);
  }

  // ----- Every run of the ring on its own

  /** The writer pushes plain lines with a newline; the reader does what readers do. */
  ghost predicate LineStep(s: Sys, u: Sys, line: string) {
    (Plain(line) && WriterStep(s, u, WORKER, line + "\n")) || ReaderStep(s, u)
  }

  ghost predicate IsLineRun(run: seq<Sys>, lines: seq<string>) {
    && |run| == |lines| + 1 && Init(run[0]) && Solo(run[0])
    && forall i :: 0 <= i < |lines| ==> LineStep(run[i], run[i + 1], lines[i])
  }

  /** The writer is waiting for the lock with a plain line. */
  ghost predicate Waits(s: Sys)
    requires Solo(s)
  {
    var w := s.writers[WORKER];
    w.Spinning? ==> exists line :: Plain(line) && w.rest == line + "\n"
  }

  /** The line whose delivery starts in a step, if one does. */
  ghost function Starts(s: Sys, u: Sys): seq<string> {
    if Acquires(s, u) && s.writers[WORKER].rest != "" then
      [s.writers[WORKER].rest[..|s.writers[WORKER].rest| - 1]]
    else []
  }

  /** The lines whose delivery has started after k steps. */
  ghost function Delivered(run: seq<Sys>, k: nat): seq<string>
    requires k < |run|
  {
    if k == 0 then [] else Delivered(run, k - 1) + Starts(run[k - 1], run[k])
  }

  /** Some delivery in the first k steps is cut. */
  ghost predicate AnyCut(run: seq<Sys>, k: nat)
    requires k < |run|
  {
    k > 0 && (AnyCut(run, k - 1) || Cuts(run[k - 1], run[k]))
  }

  /** The session that the events lead to shows the ring, and its raw stream spells the delivered lines. */
  ghost predicate Projects(s: Sys, es: seq<Event>, delivered: seq<string>) {
    && Solo(s) && Shows(s, Play(START, es)) && Play(START, es).line == "" == EditAll("", RawOf(es))
    && Lines("", RawOf(es)) == delivered
  }

  /** Every run of the ring is a session of the line editor: some list of typed characters and reads
      spells the lines delivered so far and leads to the same characters taken and, whenever no delivery
      is under way, to the same input. */
  lemma RunProjects(run: seq<Sys>, lines: seq<string>, k: nat) returns (es: seq<Event>)
    requires IsLineRun(run, lines) && k < |run|
    ensures Inv(run[k]) && Solo(run[k]) && Waits(run[k]) && Projects(run[k], es, Delivered(run, k))
    ensures Play(START, es).taken == run[k].consumed
    ensures Pending(run[k].writers[WORKER]) == "" ==> Play(START, es).input == run[k].ring.Contents()
    ensures Play(START, es).cut <==> AnyCut(run, k)
  {
    es := RunTracked(run, lines, k);
    ProjectsShows(run[k], es, Delivered(run, k));
  }

  /** The events lead to the ring after k steps. */
  ghost predicate Tracked(run: seq<Sys>, k: nat, es: seq<Event>)
    requires k < |run|
  {
    && Inv(run[k]) && Solo(run[k]) && Waits(run[k]) && Projects(run[k], es, Delivered(run, k))
    && (Play(START, es).cut <==> AnyCut(run, k))
  }

  lemma {:induction false} RunTracked(run: seq<Sys>, lines: seq<string>, k: nat) returns (es: seq<Event>)
    requires IsLineRun(run, lines) && k < |run|
    ensures Tracked(run, k, es)
  {
    if k == 0 {
      InitProjects(run[0]);
      es := [];
    } else {
      var before := RunTracked(run, lines, k - 1);
      es := StepTracked(run, lines, k, before);
    }
  }

  lemma StepTracked(run: seq<Sys>, lines: seq<string>, k: nat, before: seq<Event>) returns (es: seq<Event>)
    requires IsLineRun(run, lines) && 0 < k < |run| && Tracked(run, k - 1, before)
    ensures Tracked(run, k, es)
  {
    assert LineStep(run[k - 1], run[k - 1 + 1], lines[k - 1]);
    es := StepProjects(run[k - 1], run[k], lines[k - 1], before, Delivered(run, k - 1));
  }

  lemma ProjectsShows(s: Sys, es: seq<Event>, delivered: seq<string>)
    requires Projects(s, es, delivered)
    ensures Play(START, es).taken == s.consumed
    ensures Pending(s.writers[WORKER]) == "" ==> Play(START, es).input == s.ring.Contents()
  {
  }

  lemma InitProjects(s: Sys)
    requires Init(s) && Solo(s)
    ensures Inv(s) && Waits(s) && Projects(s, [], []) && !Play(START, []).cut
  {
    InitInv(s);
    EmptyAndFull(s.ring);
  }

  lemma StepProjects(s: Sys, u: Sys, line: string, before: seq<Event>, delivered: seq<string>)
    returns (es: seq<Event>)
    requires Inv(s) && Solo(s) && Waits(s) && LineStep(s, u, line) && Projects(s, before, delivered)
    ensures Inv(u) && Solo(u) && Waits(u) && Projects(u, es, delivered + Starts(s, u))
    ensures Play(START, es).cut <==> Play(START, before).cut || Cuts(s, u)
  {
    var t := Play(START, before);
    NextInv(s, u);
    es := before;
    if ReaderStep(s, u) {
      ReaderShows(s, u, t);
      if s.reader.Taking? {
        PlaySnoc(START, before, Take);
        es := before + [Take];
        assert RawOf(es) == RawOf(before);
      }
    } else {
      WriterShows(s, u, line + "\n", t);
      if Acquires(s, u) {
        es := DeliveryProjects(s, u, before, delivered);
      }
    }
  }

  /** The start of a delivery is the typing of its line and a line end. */
  lemma DeliveryProjects(s: Sys, u: Sys, before: seq<Event>, delivered: seq<string>) returns (es: seq<Event>)
    requires Inv(s) && Inv(u) && Solo(s) && Waits(s) && Projects(s, before, delivered)
    requires WriterStep(s, u, WORKER, "") && Acquires(s, u)
    ensures Solo(u) && Projects(u, es, delivered + Starts(s, u))
    ensures Play(START, es).cut <==> Play(START, before).cut || Cuts(s, u)
  {
    var text :| Plain(text) && s.writers[WORKER].rest == text + "\n";
    KeysPlay(START, before, text);
    TextEdits("", RawOf(before), text);
    var typed := before + Keys(text);
    assert Shows(s, Play(START, typed));
    AcquireShows(s, u, Play(START, typed), '\n');
    PlaySnoc(START, typed, Raw('\n'));
    LinesSnoc("", RawOf(typed), '\n');
    es := typed + [Raw('\n')];
    assert Starts(s, u) == [text];
  }

  /** When no delivery is cut, what the reader has taken, what waits and what is under way are exactly
      the delivered lines, in order. */
  lemma DeliveredLinesArrive(run: seq<Sys>, lines: seq<string>, k: nat)
    requires IsLineRun(run, lines) && k < |run| && !AnyCut(run, k)
    ensures Solo(run[k])
    ensures run[k].consumed + PushAll(run[k].ring.Contents(), Pending(run[k].writers[WORKER])) ==
            Joined(Delivered(run, k))
  {
    var es := RunProjects(run, lines, k);
    NothingCutNothingLost(START, es);
    assert Seen(START) == "";
  }
}
