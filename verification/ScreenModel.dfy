/** The scrolling text screen as a pure machine: 80 by 25 cells, text in columns 1..78 of rows 1..22. */
module ScreenModel {
  import opened Keyboard

  const WIDTH: nat := 80
  const HEIGHT: nat := 25
  const X0: nat := 1
  const X1: nat := 78
  const Y0: nat := 1
  const Y1: nat := 22
  const COLUMNS: nat := X1 - X0 + 1
  const ATTRIBUTE: nat := 0x1E   // yellow on blue

  /** attribute << 8 | (uint8_t) c */
  function Cell(c: char): nat {
    ATTRIBUTE * 256 + c as int % 256
  }

  const BLANK: nat := Cell(' ')

  datatype Screen = Screen(cells: seq<nat>, cx: nat, cy: nat) {
    predicate Sized() { |cells| == WIDTH * HEIGHT }
  }

  predicate OnGrid(x: int, y: int) { 0 <= x < WIDTH && 0 <= y < HEIGHT }

  function At(cells: seq<nat>, x: int, y: int): nat
    requires |cells| == WIDTH * HEIGHT && OnGrid(x, y)
  {
    cells[y * WIDTH + x]
  }

  function Put(cells: seq<nat>, x: int, y: int, cell: nat): (r: seq<nat>)
    requires |cells| == WIDTH * HEIGHT && OnGrid(x, y)
    ensures |r| == |cells|
    ensures forall u, v :: OnGrid(u, v) ==> At(r, u, v) == if u == x && v == y then cell else At(cells, u, v)
  {
    cells[y * WIDTH + x := cell]
  }

  predicate Inside(x: int, y: int) { X0 <= x <= X1 && Y0 <= y <= Y1 }

  /** The cell that a scroll puts at (x, y). */
  predicate Scrolled(cells: seq<nat>, cell: nat, x: int, y: int)
    requires |cells| == WIDTH * HEIGHT && OnGrid(x, y)
  {
    cell == if !Inside(x, y) then At(cells, x, y) else if y < Y1 then At(cells, x, y + 1) else BLANK
  }

  /** Every row of the text area moves up by one and the last becomes blank. */
  function Scroll(cells: seq<nat>): (r: seq<nat>)
    requires |cells| == WIDTH * HEIGHT
    ensures |r| == |cells|
    ensures forall x, y :: OnGrid(x, y) ==> Scrolled(cells, At(r, x, y), x, y)
  {
    var r := seq(|cells|, k requires 0 <= k < |cells| =>
      if !Inside(k % WIDTH, k / WIDTH) then cells[k] else if k / WIDTH < Y1 then cells[k + WIDTH] else BLANK);
    assert forall x, y :: OnGrid(x, y) ==> Scrolled(cells, At(r, x, y), x, y) by {
      forall x, y | OnGrid(x, y)
        ensures Scrolled(cells, At(r, x, y), x, y)
      {
        var k := y * WIDTH + x;
        assert k % WIDTH == x && k / WIDTH == y;
        if y < Y1 { assert (y + 1) * WIDTH + x == k + WIDTH; }
      }
    }
    r
  }

  /** One output character, as the loop of compositor_main treats it. */
  function Step(s: Screen, c: char): (r: Screen)
    requires s.Sized() && OnGrid(s.cx, s.cy)
    ensures r.Sized()
  {
    if c == BACKSPACE then
      if s.cx > X0 then Screen(Put(s.cells, s.cx - 1, s.cy, BLANK), s.cx - 1, s.cy)
      else if s.cy > Y0 then Screen(Put(s.cells, X1, s.cy - 1, BLANK), X1, s.cy - 1)
      else s
    else if c == '\n' || s.cx >= X1 then
      if s.cy < Y1 then s.(cx := X0, cy := s.cy + 1) else Screen(Scroll(s.cells), X0, Y1)
    else Screen(Put(s.cells, s.cx, s.cy, Cell(c)), s.cx + 1, s.cy)
  }

  /** The cursor is in the text area and its last column is blank. */
  ghost predicate Inv(s: Screen) {
    && s.Sized() && Inside(s.cx, s.cy)
    && forall y :: Y0 <= y <= Y1 ==> At(s.cells, X1, y) == BLANK
  }

  ghost predicate SameBorder(s: Screen, t: Screen) {
    && s.Sized() && t.Sized()
    && forall x, y :: OnGrid(x, y) && !Inside(x, y) ==> At(s.cells, x, y) == At(t.cells, x, y)
  }

  lemma StepInv(s: Screen, c: char)
    requires Inv(s)
    ensures Inv(Step(s, c)) && SameBorder(s, Step(s, c))
  {
    var t := Step(s, c);
    forall y | Y0 <= y <= Y1
      ensures At(t.cells, X1, y) == BLANK
    {
      assert At(s.cells, X1, y) == BLANK;
      if y < Y1 { assert At(s.cells, X1, y + 1) == BLANK; }
    }
  }

  function Run(s: Screen, text: string): Screen
    requires Inv(s)
    decreases |text|
  {
    if text == "" then s
    else
      StepInv(s, text[0]);
      Run(Step(s, text[0]), text[1..])
  }

  /** Without clears, no output ever touches the border or the status row, leaves the text area, or
      marks its last column. */
  lemma {:induction false} RunKeepsBorder(s: Screen, text: string)
    requires Inv(s)
    ensures Inv(Run(s, text)) && SameBorder(s, Run(s, text))
    decreases |text|
  {
    if text != "" {
      StepInv(s, text[0]);
      RunKeepsBorder(Step(s, text[0]), text[1..]);
    }
  }

  // ----- The linear cursor

  predicate Ordinary(c: char) { c != BACKSPACE && c != '\n' }

  function Linear(s: Screen): int {
    (s.cy - Y0) * COLUMNS + s.cx - X0
  }

  /** The step scrolls the text area. */
  predicate Scrolls(s: Screen, c: char) {
    c != BACKSPACE && (c == '\n' || s.cx >= X1) && s.cy >= Y1
  }

  /** An ordinary character advances the linear cursor by one, counting a scrolled row as passed. */
  lemma OrdinaryAdvances(s: Screen, c: char)
    requires Inv(s) && Ordinary(c)
    ensures Linear(Step(s, c)) + (if Scrolls(s, c) then COLUMNS else 0) == Linear(s) + 1
  {
  }

  /** A newline goes to the start of the next row, from whatever column, and marks nothing: the text stays,
      or moves up by one row when there is no next one. */
  lemma NewlineAdvances(s: Screen)
    requires Inv(s)
    ensures var t, up := Step(s, '\n'), if s.cy == Y1 then 1 else 0;
            && t.cx == X0 && t.cy == s.cy + 1 - up
            && Linear(t) + up * COLUMNS == (s.cy - Y0 + 1) * COLUMNS
            && (forall x, y :: Inside(x, y) && Inside(x, y + up) ==> At(t.cells, x, y) == At(s.cells, x, y + up))
            && (up == 1 ==> forall x :: X0 <= x <= X1 ==> At(t.cells, x, Y1) == BLANK)
  {
  }

  /** A backspace goes one place back, over the row ends too, and blanks the cell it comes to; at the first
      place it does nothing. */
  lemma BackspaceRetreats(s: Screen)
    requires Inv(s)
    ensures var t := Step(s, BACKSPACE);
            && (Linear(s) == 0 ==> t == s)
            && (Linear(s) > 0 ==> Inside(t.cx, t.cy) && Linear(t) == Linear(s) - 1)
            && (Linear(s) > 0 ==> forall x, y :: OnGrid(x, y) ==>
                  At(t.cells, x, y) == if x == t.cx && y == t.cy then BLANK else At(s.cells, x, y))
  {
  }

  /** The character is shown exactly when it does not arrive at the last column, which only wraps. */
  lemma ShownExact(s: Screen, c: char)
    requires Inv(s) && Ordinary(c) && Cell(c) != BLANK
    ensures At(Step(s, c).cells, s.cx, s.cy) == Cell(c) <==> s.cx < X1
  {
    assert At(s.cells, X1, s.cy) == BLANK;
  }

  // ----- What a whole text shows

  lemma {:induction false} RunSnoc(s: Screen, text: string, c: char)
    requires Inv(s)
    ensures Inv(Run(s, text)) && Run(s, text + [c]) == Step(Run(s, text), c)
    decreases |text|
  {
    RunKeepsBorder(s, text);
    if text == "" {
      assert text + [c] == [c] && [c][1..] == "";
    } else {
      assert (text + [c])[0] == text[0] && (text + [c])[1..] == text[1..] + [c];
      StepInv(s, text[0]);
      RunSnoc(Step(s, text[0]), text[1..], c);
    }
  }

  /** Ordinary characters move the cursor's column round the width of the text area, through any number
      of wraps and scrolls. */
  lemma {:induction false} RunColumn(s: Screen, text: string)
    requires Inv(s) && forall c <- text :: Ordinary(c)
    ensures Inv(Run(s, text)) && Run(s, text).cx == X0 + (s.cx - X0 + |text|) % COLUMNS
    decreases |text|
  {
    RunKeepsBorder(s, text);
    if text != "" {
      assert Ordinary(text[0]);
      StepInv(s, text[0]);
      var t := Step(s, text[0]);
      assert t.cx - X0 == NextColumn(s.cx - X0);
      RunColumn(t, text[1..]);
      ColumnsCount(s.cx - X0, |text| - 1);
    }
  }

  function NextColumn(x: int): int { if x == COLUMNS - 1 then 0 else x + 1 }

  lemma ColumnsCount(x: nat, n: nat)
    requires x < COLUMNS
    ensures (NextColumn(x) + n) % COLUMNS == (x + (n + 1)) % COLUMNS
  {
  }

  /** Of a text of ordinary characters, exactly those are swallowed that arrive at the last column: one
      in every 78. */
  lemma RunShows(s: Screen, text: string, k: nat)
    requires Inv(s) && (forall c <- text :: Ordinary(c)) && k < |text| && Cell(text[k]) != BLANK
    ensures var u := Run(s, text[..k]);
            && Inv(u) && Run(s, text[..k + 1]) == Step(u, text[k])
            && (At(Run(s, text[..k + 1]).cells, u.cx, u.cy) == Cell(text[k]) <==>
                (s.cx - X0 + k) % COLUMNS != COLUMNS - 1)
  {
    assert text[..k + 1] == text[..k] + [text[k]];
    RunColumn(s, text[..k]);
    RunSnoc(s, text[..k], text[k]);
    ShownExact(Run(s, text[..k]), text[k]);
  }

  /** The place of a cell of the text area. */
  function Place(x: int, y: int): int {
    (y - Y0) * COLUMNS + x - X0
  }

  /** A cell after a text has been written from place `from` on. */
  function Written(cells: seq<nat>, from: int, text: string, x: int, y: int): nat
    requires |cells| == WIDTH * HEIGHT && OnGrid(x, y)
  {
    if Inside(x, y) && x < X1 && from <= Place(x, y) < from + |text| then Cell(text[Place(x, y) - from])
    else At(cells, x, y)
  }

  /** While nothing scrolls, a text of ordinary characters stands on the screen from the cursor on, except
      for the characters at the last column, and every other cell is as before. */
  lemma {:induction false} RunWrites(s: Screen, text: string)
    requires Inv(s) && (forall c <- text :: Ordinary(c))
    requires Linear(s) + |text| < COLUMNS * (Y1 - Y0 + 1)
    ensures var t := Run(s, text);
            && Inv(t) && Linear(t) == Linear(s) + |text|
            && forall x, y :: OnGrid(x, y) ==> At(t.cells, x, y) == Written(s.cells, Linear(s), text, x, y)
    decreases |text|
  {
    if text != "" {
      var init, c := text[..|text| - 1], text[|text| - 1];
      assert text == init + [c] && Ordinary(c);
      RunWrites(s, init);
      RunSnoc(s, init, c);
      WriteOne(s, Run(s, init), init, c);
    }
  }

  lemma WriteOne(s: Screen, t: Screen, init: string, c: char)
    requires Inv(s) && Inv(t) && Ordinary(c) && Linear(t) == Linear(s) + |init|
    requires Linear(t) + 1 < COLUMNS * (Y1 - Y0 + 1)
    requires forall x, y :: OnGrid(x, y) ==> At(t.cells, x, y) == Written(s.cells, Linear(s), init, x, y)
    ensures var u := Step(t, c);
            && Inv(u) && Linear(u) == Linear(t) + 1
            && forall x, y :: OnGrid(x, y) ==> At(u.cells, x, y) == Written(s.cells, Linear(s), init + [c], x, y)
  {
    var u := Step(t, c);
    StepInv(t, c);
    OrdinaryAdvances(t, c);
    forall x, y | OnGrid(x, y)
      ensures At(u.cells, x, y) == Written(s.cells, Linear(s), init + [c], x, y)
    {
      assert At(t.cells, x, y) == Written(s.cells, Linear(s), init, x, y);
      if Inside(x, y) && Place(x, y) == Linear(t) { assert x == t.cx && y == t.cy; }
    }
  }

  /** The echoed "\b \b". */
  function Rubout(s: Screen): Screen
    requires Inv(s)
  {
    StepInv(s, BACKSPACE);
    StepInv(Step(s, BACKSPACE), ' ');
    Step(Step(Step(s, BACKSPACE), ' '), BACKSPACE)
  }

  /** A character rubbed out again leaves the screen as it was, up to scrolling, with the cursor back
      on its place in the text and that cell blank. */
  lemma RuboutUndoes(s: Screen, c: char)
    requires Inv(s) && Ordinary(c)
    ensures Inv(Step(s, c))
    ensures var u := Rubout(Step(s, c));
            var base := if Scrolls(s, c) then s.(cells := Scroll(s.cells), cy := s.cy - 1) else s;
            && Linear(u) + (if Scrolls(s, c) then COLUMNS else 0) == Linear(s)
            && u.cx == base.cx && u.cy == base.cy
            && forall x, y :: OnGrid(x, y) ==>
                 At(u.cells, x, y) == if x == u.cx && y == u.cy then BLANK else At(base.cells, x, y)
  {
    StepInv(s, c);
    var t := Step(s, c);
    var t1 := Step(t, BACKSPACE);
    StepInv(t, BACKSPACE);
    StepInv(t1, ' ');
    var t2 := Step(t1, ' ');
    assert t2.cx == t.cx && t2.cy == t.cy;
  }

  // ----- Clearing

  /** compositor_clear_screen: the loops stop before the last column, and the cursor goes to row 0. */
  function Clear(s: Screen): (r: Screen)
    requires s.Sized()
    ensures r.Sized() && r.cx == X0 && r.cy == Y0 - 1
    ensures forall x, y :: OnGrid(x, y) ==>
              At(r.cells, x, y) == if X0 <= x < X1 && Y0 <= y <= Y1 then BLANK else At(s.cells, x, y)
  {
    Screen(seq(|s.cells|, k requires 0 <= k < |s.cells| =>
             if X0 <= k % WIDTH < X1 && Y0 <= k / WIDTH <= Y1 then BLANK else s.cells[k]), X0, Y0 - 1)
  }

  /** The whole text area ends up blank although the last column is skipped. */
  lemma ClearBlanksInterior(s: Screen)
    requires Inv(s)
    ensures SameBorder(s, Clear(s))
    ensures forall x, y :: Inside(x, y) ==> At(Clear(s).cells, x, y) == BLANK
  {
  }

  /** After a clear the cursor is on the border row: the next character restores the invariant exactly
      when it is a newline, and any ordinary one is drawn over the border. */
  lemma AfterClear(s: Screen, c: char)
    requires Inv(s)
    ensures Inv(Step(Clear(s), c)) <==> c == '\n'
    ensures Ordinary(c) ==> At(Step(Clear(s), c).cells, X0, 0) == Cell(c)
    ensures !Ordinary(c) ==> SameBorder(s, Step(Clear(s), c))
  {
  }

  // ----- Streams with clears

  datatype Event = Show(c: char) | Wipe

  /** What holds even between a clear and the newline after it. */
  ghost predicate Loose(s: Screen) {
    && s.Sized() && X0 <= s.cx <= X1 && s.cy <= Y1
    && forall y :: Y0 <= y <= Y1 ==> At(s.cells, X1, y) == BLANK
  }

  /** Only the text area and the part of the border row above it that the cursor can reach may differ. */
  ghost predicate SameFrame(s: Screen, t: Screen) {
    && s.Sized() && t.Sized()
    && forall x, y :: OnGrid(x, y) && !Inside(x, y) && !(y == 0 && X0 <= x < X1) ==>
         At(s.cells, x, y) == At(t.cells, x, y)
  }

  function React(s: Screen, e: Event): Screen
    requires s.Sized() && OnGrid(s.cx, s.cy)
  {
    match e
    case Show(c) => Step(s, c)
    case Wipe => Clear(s)
  }

  predicate Reacts(s: Screen, e: Event, t: Screen) {
    s.Sized() && OnGrid(s.cx, s.cy) && t == React(s, e)
  }

  lemma ReactLoose(s: Screen, e: Event)
    requires Loose(s)
    ensures Loose(React(s, e)) && SameFrame(s, React(s, e))
    ensures s.cy >= Y0 && e.Show? ==> SameBorder(s, React(s, e))
  {
    var t := React(s, e);
    forall y | Y0 <= y <= Y1
      ensures At(t.cells, X1, y) == BLANK
    {
      assert At(s.cells, X1, y) == BLANK;
      if y < Y1 { assert At(s.cells, X1, y + 1) == BLANK; }
    }
  }

  /** Over every stream of characters and clears the cursor stays in columns 1..78 of rows 0..22, the last
      text column stays blank, and of the frame only columns 1..77 of the top row can change. */
  lemma {:induction false} EventsKeepFrame(ss: seq<Screen>, es: seq<Event>, k: nat)
    requires |ss| == |es| + 1 && Loose(ss[0]) && k < |ss|
    requires forall i :: 0 <= i < |es| ==> Reacts(ss[i], es[i], ss[i + 1])
    ensures Loose(ss[k]) && SameFrame(ss[0], ss[k])
  {
    if k > 0 {
      EventsKeepFrame(ss, es, k - 1);
      assert Reacts(ss[k - 1], es[k - 1], ss[k - 1 + 1]);
      ReactLoose(ss[k - 1], es[k - 1]);
    }
  }
}
