/** The compositor task's screen: the framebuffer and the cursor, changed one character at a time. */
module Compositor {
  import opened Keyboard
  import opened ScreenModel

  class TextScreen {
    const framebuffer: array<nat>
    var cursorX: nat
    var cursorY: nat

    ghost predicate Valid()
      reads this
    {
      framebuffer.Length == WIDTH * HEIGHT && X0 <= cursorX <= X1 && cursorY <= Y1
    }

    ghost function View(): (s: Screen)
      requires Valid()
      reads this, framebuffer
      ensures s.Sized() && s.cx == cursorX && s.cy == cursorY
    {
      Screen(framebuffer[..], cursorX, cursorY)
    }

    /** The screen as compositor_init leaves it: `cells` is its drawing, the text area empty. */
    constructor (cells: seq<nat>)
      requires |cells| == WIDTH * HEIGHT
      requires forall x, y :: Inside(x, y) ==> At(cells, x, y) == BLANK
      ensures Valid() && View() == Screen(cells, X0, Y0) && Inv(View()) && fresh(framebuffer)
    {
      framebuffer := new nat[WIDTH * HEIGHT](k requires 0 <= k < |cells| => cells[k]);
      cursorX, cursorY := X0, Y0;
      new;
      assert framebuffer[..] == cells;
    }

    /** vga_putc in the compositor's colours. */
    method PutChar(c: char, x: nat, y: nat)
      requires Valid() && OnGrid(x, y)
      modifies framebuffer
      ensures framebuffer[..] == Put(old(framebuffer[..]), x, y, Cell(c))
    {
      framebuffer[y * WIDTH + x] := Cell(c);
    }

    /** memmove of the row below onto text row y. */
    method MoveRowUp(y: nat)
      requires Valid() && Y0 <= y < Y1
      modifies framebuffer
      ensures RowMoved(old(framebuffer[..]), framebuffer[..], y, COLUMNS)
    {
      ghost var before := framebuffer[..];
      var dst, src := y * WIDTH + X0, (y + 1) * WIDTH + X0;
      for i := 0 to COLUMNS
        invariant RowMoved(before, framebuffer[..], y, i)
      {
        ghost var now := framebuffer[..];
        framebuffer[dst + i] := framebuffer[src + i];
        assert framebuffer[..] == Put(now, X0 + i, y, At(now, X0 + i, y + 1));
      }
    }

    /** The last loop of compositor_scroll: the bottom text row becomes blank. */
    method BlankLastRow()
      requires Valid()
      modifies framebuffer
      ensures forall u, v :: OnGrid(u, v) ==>
                At(framebuffer[..], u, v) ==
                if v == Y1 && X0 <= u <= X1 then BLANK else At(old(framebuffer[..]), u, v)
    {
      var row := Y1 * WIDTH + X0;
      for x := 0 to COLUMNS
        invariant forall u, v :: OnGrid(u, v) ==>
          At(framebuffer[..], u, v) ==
          if v == Y1 && X0 <= u < X0 + x then BLANK else At(old(framebuffer[..]), u, v)
      {
        framebuffer[row + x] := BLANK;
      }
    }

    /** compositor_scroll */
    method ScrollUp()
      requires Valid()
      modifies framebuffer
      ensures framebuffer[..] == Scroll(old(framebuffer[..]))
    {
      ghost var before := framebuffer[..];
      for y := Y0 to Y1
        invariant MovedTo(before, framebuffer[..], y)
      {
        ghost var now := framebuffer[..];
        MoveRowUp(y);
        MoveOneMore(before, now, framebuffer[..], y);
      }
      ghost var moved := framebuffer[..];
      BlankLastRow();
      ScrollDone(before, moved, framebuffer[..]);
    }

    /** The body of compositor_main's loop. */
    method Output(c: char)
      requires Valid()
      modifies this, framebuffer
      ensures Valid() && View() == Step(old(View()), c)
      ensures old(Inv(View())) ==> Inv(View()) && SameBorder(old(View()), View())
    {
      if Inv(View()) { StepInv(View(), c); }
      if c == BACKSPACE {
        if cursorX > X0 {
          cursorX := cursorX - 1;
          PutChar(' ', cursorX, cursorY);
        } else if cursorY > Y0 {
          cursorY := cursorY - 1;
          cursorX := X1;
          PutChar(' ', cursorX, cursorY);
        }
      } else if c == '\n' || cursorX >= X1 {
        cursorX := X0;
        if cursorY < Y1 {
          cursorY := cursorY + 1;
        } else {
          ScrollUp();
          cursorY := Y1;
        }
      } else {
        PutChar(c, cursorX, cursorY);
        cursorX := cursorX + 1;
      }
    }

    /** compositor_clear_screen */
    method ClearScreen()
      requires Valid()
      modifies this, framebuffer
      ensures Valid() && View() == Clear(old(View()))
    {
      ghost var before := framebuffer[..];
      for x := X0 to COLUMNS
        invariant ClearedTo(before, framebuffer[..], x, Y0)
      {
        for y := Y0 to Y1 - Y0 + 2
          invariant ClearedTo(before, framebuffer[..], x, y)
        {
          framebuffer[y * WIDTH + x] := BLANK;
        }
      }
      SameCells(framebuffer[..], Clear(old(View())).cells);
      cursorX := X0;
      cursorY := Y0 - 1;
    }
  }

  /** The cells while the first `count` columns of text row y have been replaced by those below. */
  ghost predicate RowMoved(before: seq<nat>, now: seq<nat>, y: nat, count: nat)
    requires |before| == |now| == WIDTH * HEIGHT && y < Y1
  {
    forall u, v :: OnGrid(u, v) ==>
      At(now, u, v) == if v == y && X0 <= u < X0 + count then At(before, u, y + 1) else At(before, u, v)
  }

  /** The cells while the rows before `row` have been moved up. */
  ghost predicate MovedTo(before: seq<nat>, now: seq<nat>, row: nat)
    requires |before| == |now| == WIDTH * HEIGHT
  {
    forall x, y {:trigger At(now, x, y)} :: OnGrid(x, y) ==>
      At(now, x, y) == if Inside(x, y) && y < row && y < Y1 then At(before, x, y + 1) else At(before, x, y)
  }

  lemma MoveOneMore(before: seq<nat>, now: seq<nat>, next: seq<nat>, y: nat)
    requires |before| == |now| == |next| == WIDTH * HEIGHT && Y0 <= y < Y1
    requires MovedTo(before, now, y) && RowMoved(now, next, y, COLUMNS)
    ensures MovedTo(before, next, y + 1)
  {
    forall u, v | OnGrid(u, v)
      ensures At(next, u, v) == if Inside(u, v) && v < y + 1 && v < Y1 then At(before, u, v + 1) else At(before, u, v)
    {
      assert At(now, u, v) == if Inside(u, v) && v < y then At(before, u, v + 1) else At(before, u, v);
      if v == y { assert At(now, u, y + 1) == At(before, u, y + 1); }
    }
  }

  lemma ScrollDone(before: seq<nat>, moved: seq<nat>, now: seq<nat>)
    requires |before| == |moved| == |now| == WIDTH * HEIGHT && MovedTo(before, moved, Y1)
    requires forall u, v :: OnGrid(u, v) ==>
               At(now, u, v) == if v == Y1 && X0 <= u <= X1 then BLANK else At(moved, u, v)
    ensures now == Scroll(before)
  {
    forall x, y | OnGrid(x, y)
      ensures At(now, x, y) == At(Scroll(before), x, y)
    {
      assert Scrolled(before, At(Scroll(before), x, y), x, y);
      assert At(moved, x, y) == if Inside(x, y) && y < Y1 then At(before, x, y + 1) else At(before, x, y);
    }
    SameCells(now, Scroll(before));
  }

  /** The cells while the columns before `col`, and the rows before `row` of that one, are cleared. */
  ghost predicate ClearedTo(before: seq<nat>, now: seq<nat>, col: nat, row: nat)
    requires |before| == |now| == WIDTH * HEIGHT
  {
    forall x, y :: OnGrid(x, y) ==>
      At(now, x, y) ==
      if X0 <= x && Y0 <= y <= Y1 && (x < col || (x == col && y < row)) then BLANK else At(before, x, y)
  }

  lemma SameCells(a: seq<nat>, b: seq<nat>)
    requires |a| == |b| == WIDTH * HEIGHT
    requires forall x, y :: OnGrid(x, y) ==> At(a, x, y) == At(b, x, y)
    ensures a == b
  {
    forall k | 0 <= k < |a|
      ensures a[k] == b[k]
    {
      var (x, y) := (k % WIDTH, k / WIDTH);
      assert OnGrid(x, y) && y * WIDTH + x == k;
      assert At(a, x, y) == At(b, x, y);
    }
  }
}
