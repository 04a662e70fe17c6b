/** What a text with newlines shows: the screen is a window on a page that has no last row. */
module ScreenPage {
  import opened Keyboard
  import opened ScreenModel

  /** A place on the page: rows count on from the text area's, columns are those of the screen. */
  datatype Pen = Pen(row: nat, col: nat) {
    predicate Sound() { Y0 <= row && X0 <= col <= X1 }

    /** The pen starts a new row at a newline, or at any character once it is in the last column. */
    function After(c: char): Pen {
      if c == '\n' || col == X1 then Pen(row + 1, X0) else Pen(row, col + 1)
    }

    /** Pens in the order of a text. */
    function Place(): int { row * COLUMNS + col - X0 }
  }

  predicate Marks(p: Pen, c: char) { c != '\n' && p.col != X1 }

  function PenAfter(p: Pen, text: string): Pen {
    if text == "" then p else PenAfter(p, text[..|text| - 1]).After(text[|text| - 1])
  }

  /** The cell of the page at (x, row), over the cells that the screen had; rows past those are blank. */
  function Page(cells: seq<nat>, p: Pen, text: string, x: nat, row: nat): nat
    requires |cells| == WIDTH * HEIGHT && X0 <= x <= X1 && Y0 <= row
  {
    if text == "" then (if row <= Y1 then At(cells, x, row) else BLANK)
    else
      var init, c := text[..|text| - 1], text[|text| - 1];
      var q := PenAfter(p, init);
      if Marks(q, c) && q == Pen(row, x) then Cell(c) else Page(cells, p, init, x, row)
  }

  // ----- Where the pen goes

  lemma PenSnoc(p: Pen, text: string, c: char)
    ensures PenAfter(p, text + [c]) == PenAfter(p, text).After(c)
  {
    assert (text + [c])[..|text|] == text;
  }

  lemma {:induction false} PenSound(p: Pen, text: string)
    requires p.Sound()
    ensures PenAfter(p, text).Sound() && PenAfter(p, text).row >= p.row
  {
    if text != "" { PenSound(p, text[..|text| - 1]); }
  }

  lemma {:induction false} PenSplit(p: Pen, a: string, b: string)
    ensures PenAfter(p, a + b) == PenAfter(PenAfter(p, a), b)
    decreases |b|
  {
    if b == "" {
      assert a + b == a;
    } else {
      var init, c := b[..|b| - 1], b[|b| - 1];
      PenSplit(p, a, init);
      PenSnoc(p, a + init, c);
      assert a + b == a + init + [c];
    }
  }

  /** Without newlines the pen counts on from place to place, 78 to the row. */
  lemma {:induction false} PenCounts(p: Pen, line: string)
    requires p.Sound() && '\n' !in line
    ensures PenAfter(p, line).Sound() && PenAfter(p, line).Place() == p.Place() + |line|
  {
    if line != "" {
      var init := line[..|line| - 1];
      PenCounts(p, init);
      assert line[|line| - 1] in line;
    }
  }

  /** The line after a newline starts at the left end of the next row, and the column and row of its
      every place are what is left and what is full when it is cut in rows of 78. */
  lemma PenOfLine(p: Pen, before: string, line: string)
    requires p.Sound() && '\n' !in line
    ensures PenAfter(p, before + "\n" + line) ==
            Pen(PenAfter(p, before).row + 1 + |line| / COLUMNS, X0 + |line| % COLUMNS)
  {
    var start := PenAfter(p, before + "\n");
    PenSnoc(p, before, '\n');
    PenSplit(p, before + "\n", line);
    LineFrom(start, line);
  }

  lemma LineFrom(start: Pen, line: string)
    requires start.Sound() && start.col == X0 && '\n' !in line
    ensures PenAfter(start, line) == Pen(start.row + |line| / COLUMNS, X0 + |line| % COLUMNS)
  {
    PenCounts(start, line);
    PlaceDetermines(PenAfter(start, line), start.row, |line|);
  }

  lemma PlaceDetermines(p: Pen, row: nat, n: nat)
    requires p.Sound() && p.Place() == row * COLUMNS + n
    ensures p.row == row + n / COLUMNS && p.col == X0 + n % COLUMNS
  {
  }

  // ----- The page keeps what is written

  /** The pen never comes back to a place. */
  lemma PenAdvances(p: Pen, text: string, c: char)
    requires p.Sound()
    ensures PenAfter(p, text).Place() < PenAfter(p, text + [c]).Place()
  {
    PenSound(p, text);
    PenSnoc(p, text, c);
  }

  lemma {:induction false} PenPasses(p: Pen, text: string, k: nat)
    requires p.Sound() && k < |text|
    ensures PenAfter(p, text[..k]).Place() < PenAfter(p, text).Place()
    decreases |text|
  {
    var init, c := text[..|text| - 1], text[|text| - 1];
    assert text == init + [c];
    PenAdvances(p, init, c);
    if k < |init| {
      PenPasses(p, init, k);
      assert init[..k] == text[..k];
    } else {
      assert text[..k] == init;
    }
  }

  /** Every character of a text stands on the page where the pen was, unless it ended a row there. */
  lemma {:induction false} PageShows(cells: seq<nat>, p: Pen, text: string, k: nat)
    requires |cells| == WIDTH * HEIGHT && p.Sound() && k < |text|
    requires Marks(PenAfter(p, text[..k]), text[k])
    ensures var q := PenAfter(p, text[..k]);
            q.Sound() && Page(cells, p, text, q.col, q.row) == Cell(text[k])
    decreases |text|
  {
    var init, c := text[..|text| - 1], text[|text| - 1];
    PenSound(p, text[..k]);
    if k < |init| {
      assert init[..k] == text[..k] && init[k] == text[k];
      PageShows(cells, p, init, k);
      PenPasses(p, init, k);
    } else {
      assert text[..k] == init;
    }
  }

  /** And every other place of it is as it was. */
  lemma {:induction false} PageKeeps(cells: seq<nat>, p: Pen, text: string, x: nat, row: nat)
    requires |cells| == WIDTH * HEIGHT && X0 <= x <= X1 && Y0 <= row
    requires forall k :: 0 <= k < |text| && Marks(PenAfter(p, text[..k]), text[k]) ==>
               PenAfter(p, text[..k]) != Pen(row, x)
    ensures Page(cells, p, text, x, row) == if row <= Y1 then At(cells, x, row) else BLANK
    decreases |text|
  {
    if text != "" {
      var init := text[..|text| - 1];
      assert text[..|text| - 1] == init;
      forall k | 0 <= k < |init| && Marks(PenAfter(p, init[..k]), init[k])
        ensures PenAfter(p, init[..k]) != Pen(row, x)
      {
        assert init[..k] == text[..k] && init[k] == text[k];
      }
      PageKeeps(cells, p, init, x, row);
    }
  }

  // ----- The screen is a window on the page

  /** How far the page is moved up so that the row is not below the text area. */
  function Top(row: nat): nat { if row > Y1 then row - Y1 else 0 }

  /** The text area shows the page from its row top + 1 on. */
  ghost predicate ShowsPage(cells: seq<nat>, was: seq<nat>, p: Pen, text: string, top: nat)
    requires |cells| == |was| == WIDTH * HEIGHT
  {
    forall x: nat, y: nat :: Inside(x, y) ==> ShowsCell(cells, was, p, text, top, x, y)
  }

  ghost predicate ShowsCell(cells: seq<nat>, was: seq<nat>, p: Pen, text: string, top: nat, x: nat, y: nat)
    requires |cells| == |was| == WIDTH * HEIGHT && Inside(x, y)
  {
    At(cells, x, y) == Page(was, p, text, x, y + top)
  }

  function PenOf(s: Screen): Pen { Pen(s.cy, s.cx) }

  /** Any text of ordinary characters and newlines: the screen shows its page, moved up just as far as
      the pen has gone below the text area, with the cursor at the pen. */
  lemma {:induction false} RunIsWindow(s: Screen, text: string)
    requires Inv(s) && BACKSPACE !in text
    ensures var t, q := Run(s, text), PenAfter(PenOf(s), text);
            && Inv(t) && SameBorder(s, t)
            && t.cx == q.col && t.cy + Top(q.row) == q.row
            && ShowsPage(t.cells, s.cells, PenOf(s), text, Top(q.row))
    decreases |text|
  {
    RunKeepsBorder(s, text);
    if text != "" {
      var init, c := text[..|text| - 1], text[|text| - 1];
      assert text == init + [c] && c in text;
      RunIsWindow(s, init);
      RunSnoc(s, init, c);
      WindowStep(s.cells, PenOf(s), init, c, Run(s, init));
    }
  }

  /** So every character of the text that marks a place is on the screen as long as its row is. */
  lemma CharacterShows(s: Screen, text: string, k: nat)
    requires Inv(s) && BACKSPACE !in text && k < |text|
    requires Marks(PenAfter(PenOf(s), text[..k]), text[k])
    requires PenAfter(PenOf(s), text[..k]).row > Top(PenAfter(PenOf(s), text).row)
    ensures var t, q := Run(s, text), PenAfter(PenOf(s), text[..k]);
            var y := q.row - Top(PenAfter(PenOf(s), text).row);
            Inv(t) && Inside(q.col, y) && At(t.cells, q.col, y) == Cell(text[k])
  {
    var p := PenOf(s);
    RunIsWindow(s, text);
    RowInWindow(s.cells, p, text, k);
    var q, top := PenAfter(p, text[..k]), Top(PenAfter(p, text).row);
    PageOnScreen(Run(s, text).cells, s.cells, p, text, top, q.col, q.row);
  }

  lemma RowInWindow(cells: seq<nat>, p: Pen, text: string, k: nat)
    requires |cells| == WIDTH * HEIGHT && p.Sound() && k < |text|
    requires Marks(PenAfter(p, text[..k]), text[k])
    ensures var q := PenAfter(p, text[..k]);
            && q.Sound() && q.row <= Top(PenAfter(p, text).row) + Y1
            && Page(cells, p, text, q.col, q.row) == Cell(text[k])
  {
    PageShows(cells, p, text, k);
    PenSound(p, text);
    PenPasses(p, text, k);
    EarlierRow(PenAfter(p, text[..k]), PenAfter(p, text));
  }

  lemma EarlierRow(q: Pen, last: Pen)
    requires q.Sound() && X0 <= last.col <= X1 && q.Place() < last.Place()
    ensures q.row <= last.row <= Top(last.row) + Y1
  {
  }

  lemma PageOnScreen(cells: seq<nat>, was: seq<nat>, p: Pen, text: string, top: nat, x: nat, row: nat)
    requires |cells| == |was| == WIDTH * HEIGHT && ShowsPage(cells, was, p, text, top)
    requires row >= top && Inside(x, row - top)
    ensures At(cells, x, row - top) == Page(was, p, text, x, row)
  {
    assert ShowsCell(cells, was, p, text, top, x, row - top);
  }

  lemma WindowStep(was: seq<nat>, p: Pen, init: string, c: char, t: Screen)
    requires Inv(t) && |was| == WIDTH * HEIGHT && p.Sound() && c != BACKSPACE
    requires var q := PenAfter(p, init);
             t.cx == q.col && t.cy + Top(q.row) == q.row && ShowsPage(t.cells, was, p, init, Top(q.row))
    ensures var u, r := Step(t, c), PenAfter(p, init + [c]);
            && u.Sized() && u.cx == r.col && u.cy + Top(r.row) == r.row
            && ShowsPage(u.cells, was, p, init + [c], Top(r.row))
  {
    PenSnoc(p, init, c);
    StepPen(t, c, PenAfter(p, init));
    StepShowsPage(was, p, init, c, t, Top(PenAfter(p, init).row));
  }

  lemma StepShowsPage(was: seq<nat>, p: Pen, init: string, c: char, t: Screen, top: nat)
    requires Inv(t) && |was| == WIDTH * HEIGHT && p.Sound() && c != BACKSPACE
    requires ShowsPage(t.cells, was, p, init, top) && PenAfter(p, init) == Pen(t.cy + top, t.cx)
    ensures ShowsPage(Step(t, c).cells, was, p, init + [c], if Scrolls(t, c) then top + 1 else top)
  {
    var u, up := Step(t, c), Scrolls(t, c);
    forall x: nat, y: nat | Inside(x, y)
      ensures ShowsCell(u.cells, was, p, init + [c], if up then top + 1 else top, x, y)
    {
      if up { PageBelow(was, p, init, x, Y1 + 1 + top); }
      StepCell(t, c, x, y);
      StepShowsCell(u.cells, t, was, p, init, c, top, up, x, y);
    }
  }

  lemma StepShowsCell(cells: seq<nat>, t: Screen, was: seq<nat>, p: Pen, init: string, c: char, top: nat, up: bool,
                      x: nat, y: nat)
    requires t.Sized() && |cells| == |was| == WIDTH * HEIGHT && Inside(x, y) && t.cx <= X1
    requires ShowsPage(t.cells, was, p, init, top) && PenAfter(p, init) == Pen(t.cy + top, t.cx)
    requires up ==> (c == '\n' || t.cx == X1) && Page(was, p, init, x, Y1 + 1 + top) == BLANK
    requires At(cells, x, y) ==
             if up then (if y < Y1 then At(t.cells, x, y + 1) else BLANK)
             else if c != '\n' && t.cx < X1 && x == t.cx && y == t.cy then Cell(c) else At(t.cells, x, y)
    ensures ShowsCell(cells, was, p, init + [c], if up then top + 1 else top, x, y)
  {
    PageSnoc(was, p, init, c, x, y + if up then top + 1 else top);
    WindowCell(t.cells, was, p, init, top, up, x, y);
  }

  lemma StepPen(t: Screen, c: char, q: Pen)
    requires Inv(t) && c != BACKSPACE && t.cx == q.col && t.cy + Top(q.row) == q.row
    ensures Step(t, c).cx == q.After(c).col && Step(t, c).cy + Top(q.After(c).row) == q.After(c).row
    ensures Top(q.After(c).row) == Top(q.row) + if Scrolls(t, c) then 1 else 0
    ensures Marks(q, c) <==> c != '\n' && t.cx < X1
  {
  }

  lemma StepCell(t: Screen, c: char, x: nat, y: nat)
    requires Inv(t) && c != BACKSPACE && Inside(x, y)
    ensures At(Step(t, c).cells, x, y) ==
            if Scrolls(t, c) then (if y < Y1 then At(t.cells, x, y + 1) else BLANK)
            else if c != '\n' && t.cx < X1 && x == t.cx && y == t.cy then Cell(c) else At(t.cells, x, y)
  {
  }

  /** What the window has of the page's row that it shows as row y once it has moved up or not. */
  lemma WindowCell(cells: seq<nat>, was: seq<nat>, p: Pen, text: string, top: nat, up: bool, x: nat, y: nat)
    requires |cells| == |was| == WIDTH * HEIGHT && Inside(x, y) && ShowsPage(cells, was, p, text, top)
    requires up ==> Page(was, p, text, x, Y1 + 1 + top) == BLANK
    ensures Page(was, p, text, x, y + top + if up then 1 else 0) ==
            if !up then At(cells, x, y) else if y < Y1 then At(cells, x, y + 1) else BLANK
  {
    if !up {
      assert ShowsCell(cells, was, p, text, top, x, y);
    } else if y < Y1 {
      assert ShowsCell(cells, was, p, text, top, x, y + 1);
    }
  }

  lemma PageSnoc(cells: seq<nat>, p: Pen, text: string, c: char, x: nat, row: nat)
    requires |cells| == WIDTH * HEIGHT && X0 <= x <= X1 && Y0 <= row
    ensures Page(cells, p, text + [c], x, row) ==
            if Marks(PenAfter(p, text), c) && PenAfter(p, text) == Pen(row, x) then Cell(c)
            else Page(cells, p, text, x, row)
  {
    assert (text + [c])[..|text|] == text;
  }

  /** Below the text area and the pen the page is blank. */
  lemma PageBelow(cells: seq<nat>, p: Pen, text: string, x: nat, row: nat)
    requires |cells| == WIDTH * HEIGHT && X0 <= x <= X1 && p.Sound()
    requires row > Y1 && row > PenAfter(p, text).row
    ensures Page(cells, p, text, x, row) == BLANK
  {
    forall k | 0 <= k < |text| && Marks(PenAfter(p, text[..k]), text[k])
      ensures PenAfter(p, text[..k]) != Pen(row, x)
    {
      PenPasses(p, text, k);
      PenSound(p, text);
      PenSound(p, text[..k]);
    }
    PageKeeps(cells, p, text, x, row);
  }
}
