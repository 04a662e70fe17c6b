/** The window manager's composition: sort the windows by z, then paint them over each other. */
module Painter {
  import opened Words

  const WIDTH: nat := 80
  const HEIGHT: nat := 25
  const BACKGROUND: nat := 0x0F20   // a space in attribute 0x0F

  /** A window at (x, y); `cells` is its framebuffer, row by row, if it has one. */
  datatype Window = Window(x: nat, y: nat, w: nat, h: nat, cells: Option<seq<nat>>, z: int) {
    predicate Sound() { cells.Some? ==> |cells.value| == w * h }
  }

  // ----- What a picture of windows shows

  lemma CellIndex(w: nat, h: nat, wx: nat, wy: nat)
    requires wx < w && wy < h
    ensures 0 <= wy * w + wx < w * h
  {
    assert wy * w + w == (wy + 1) * w <= h * w;
  }

  /** The window's own cell at a screen position; cell 0 lets what is below show through. */
  function CellAt(win: Window, x: nat, y: nat): Option<nat>
    requires win.Sound()
  {
    if win.cells == None || !(win.x <= x < win.x + win.w && win.y <= y < win.y + win.h) then None
    else
      CellIndex(win.w, win.h, x - win.x, y - win.y);
      var cell := win.cells.value[(y - win.y) * win.w + (x - win.x)];
      if cell == 0 then None else Some(cell)
  }

  /** attribute << 8 | (uint8_t) c */
  function MakeCell(c: char, attr: byte): nat {
    attr * 256 + c as int % 256
  }

  /** window_put_char on a framebuffer of h rows of w cells; outside of it nothing is stored. */
  function WithChar(cells: seq<nat>, w: nat, h: nat, x: nat, y: nat, cell: nat): (r: seq<nat>)
    requires |cells| == w * h
    ensures |r| == w * h
  {
    if x < w && y < h then
      CellIndex(w, h, x, y);
      cells[y * w + x := cell]
    else cells
  }

  /** A character put at (x, y) of a window is what the window shows at that place from its corner, through
      which one sees only if the whole cell is 0; every other place shows what it did. */
  lemma PutShows(win: Window, x: nat, y: nat, cell: nat, sx: nat, sy: nat)
    requires win.Sound() && win.cells.Some?
    ensures var put := win.(cells := Some(WithChar(win.cells.value, win.w, win.h, x, y, cell)));
            && put.Sound()
            && CellAt(put, sx, sy) ==
               if sx == win.x + x && sy == win.y + y && x < win.w && y < win.h then
                 (if cell == 0 then None else Some(cell))
               else CellAt(win, sx, sy)
  {
    if x < win.w && y < win.h && win.x <= sx < win.x + win.w && win.y <= sy < win.y + win.h {
      CellIndex(win.w, win.h, x, y);
      CellIndex(win.w, win.h, sx - win.x, sy - win.y);
      SameIndex(win.w, x, y, sx - win.x, sy - win.y);
    }
  }

  lemma SameIndex(w: nat, x: nat, y: nat, u: nat, v: nat)
    requires x < w && u < w
    ensures y * w + x == v * w + u <==> x == u && y == v
  {
    if y < v {
      assert (y + 1) * w <= v * w;
    } else if v < y {
      assert (v + 1) * w <= y * w;
    }
  }

  /** Painting the windows in order: the last one that shows a cell wins. */
  function Painted(ws: seq<Window>, x: nat, y: nat): nat
    requires forall w <- ws :: w.Sound()
  {
    if ws == [] then BACKGROUND
    else
      var cell := CellAt(ws[|ws| - 1], x, y);
      if cell.Some? then cell.value else Painted(ws[..|ws| - 1], x, y)
  }

  /** Order of painting: by z, and among equals by place in the window list. */
  predicate Below(ws: seq<Window>, j: nat, k: nat)
    requires j < |ws| && k < |ws|
  {
    ws[j].z < ws[k].z || (ws[j].z == ws[k].z && j < k)
  }

  /** Window k is the topmost one that shows a cell at (x, y). */
  ghost predicate Topmost(ws: seq<Window>, k: nat, x: nat, y: nat)
    requires k < |ws| && forall w <- ws :: w.Sound()
  {
    && CellAt(ws[k], x, y).Some?
    && forall j :: 0 <= j < |ws| && j != k && CellAt(ws[j], x, y).Some? ==> Below(ws, j, k)
  }

  /** So of the windows that show a cell there none has a higher z, nor the same z and a later place. */
  lemma TopmostExact(ws: seq<Window>, k: nat, x: nat, y: nat)
    requires k < |ws| && forall w <- ws :: w.Sound()
    ensures Topmost(ws, k, x, y) <==>
            && CellAt(ws[k], x, y).Some?
            && forall j :: 0 <= j < |ws| && CellAt(ws[j], x, y).Some? ==>
                 ws[j].z <= ws[k].z && (ws[j].z == ws[k].z ==> j <= k)
  {
    if Topmost(ws, k, x, y) {
      forall j | 0 <= j < |ws| && CellAt(ws[j], x, y).Some?
        ensures ws[j].z <= ws[k].z && (ws[j].z == ws[k].z ==> j <= k)
      {
        assert j != k ==> Below(ws, j, k);
      }
    }
  }

  ghost predicate Bare(ws: seq<Window>, x: nat, y: nat)
    requires forall w <- ws :: w.Sound()
  {
    forall j :: 0 <= j < |ws| ==> CellAt(ws[j], x, y) == None
  }

  /** Every position is bare or has a topmost window. */
  lemma {:induction false} TopmostExists(ws: seq<Window>, x: nat, y: nat)
    requires forall w <- ws :: w.Sound()
    ensures Bare(ws, x, y) || exists k :: 0 <= k < |ws| && Topmost(ws, k, x, y)
  {
    if ws != [] {
      var n := |ws| - 1;
      var init := ws[..n];
      TopmostExists(init, x, y);
      if CellAt(ws[n], x, y) == None {
        if k :| 0 <= k < n && Topmost(init, k, x, y) { assert Topmost(ws, k, x, y); }
      } else if k :| 0 <= k < n && Topmost(init, k, x, y) {
        if ws[k].z > ws[n].z {
          assert Topmost(ws, k, x, y);
        } else {
          forall j | 0 <= j < |ws| && j != n && CellAt(ws[j], x, y).Some?
            ensures Below(ws, j, n)
          {
            if j != k { assert Below(init, j, k); }
          }
          assert Topmost(ws, n, x, y);
        }
      } else {
        assert Topmost(ws, n, x, y);
      }
    }
  }

  // ----- Stable sorting

  /** `order[a]` is where the window now at place a came from, `place` its inverse. */
  ghost predicate Arranged(ws: seq<Window>, now: seq<Window>, order: seq<nat>, place: seq<nat>) {
    && |now| == |order| == |place| == |ws|
    && (forall a :: 0 <= a < |ws| ==> order[a] < |ws| && place[order[a]] == a && now[a] == ws[order[a]])
    && (forall k :: 0 <= k < |ws| ==> place[k] < |ws| && order[place[k]] == k)
  }

  /** Windows of equal z are still in their original order. */
  ghost predicate Stable(now: seq<Window>, order: seq<nat>)
    requires |now| == |order|
  {
    forall a, b :: 0 <= a < b < |now| && now[a].z == now[b].z ==> order[a] < order[b]
  }

  ghost predicate SortedFrom(now: seq<Window>, lo: nat) {
    forall a, b :: 0 <= a < b < |now| && lo <= b ==> now[a].z <= now[b].z
  }

  /** Swapping neighbours that are out of order keeps the bookkeeping, the stability and the sorted end. */
  lemma SwapKeeps(ws: seq<Window>, now: seq<Window>, order: seq<nat>, place: seq<nat>, j: nat, lo: nat)
    requires Arranged(ws, now, order, place) && Stable(now, order) && SortedFrom(now, lo)
    requires j + 1 < |now| && j + 1 < lo && now[j].z > now[j + 1].z
    ensures var (p, q) := (order[j], order[j + 1]);
            var swapped := now[j := now[j + 1]][j + 1 := now[j]];
            && Arranged(ws, swapped, order[j := q][j + 1 := p], place[p := j + 1][q := j])
            && Stable(swapped, order[j := q][j + 1 := p]) && SortedFrom(swapped, lo)
  {
    var (p, q) := (order[j], order[j + 1]);
    assert p != q;
  }

  /** In the sorted list the painting order is the list order, so painting in turn shows the topmost
      window of the original list. */
  lemma PaintedIsTopmost(ws: seq<Window>, now: seq<Window>, order: seq<nat>, place: seq<nat>, x: nat, y: nat)
    requires forall w <- ws :: w.Sound()
    requires forall w <- now :: w.Sound()
    requires Arranged(ws, now, order, place) && Stable(now, order) && SortedFrom(now, 0)
    ensures Bare(ws, x, y) ==> Painted(now, x, y) == BACKGROUND
    ensures forall k :: 0 <= k < |ws| && Topmost(ws, k, x, y) ==> Painted(now, x, y) == CellAt(ws[k], x, y).value
  {
    if Bare(ws, x, y) {
      forall a | 0 <= a < |now|
        ensures CellAt(now[a], x, y) == None
      {
        assert now[a] == ws[order[a]];
      }
      PaintedBare(now, x, y);
    }
    forall k | 0 <= k < |ws| && Topmost(ws, k, x, y)
      ensures Painted(now, x, y) == CellAt(ws[k], x, y).value
    {
      var a := place[k];
      forall b | a < b < |now|
        ensures CellAt(now[b], x, y) == None
      {
        assert now[b] == ws[order[b]] && order[b] != k;
      }
      PaintedLast(now, a, x, y);
    }
  }

  lemma {:induction false} PaintedBare(ws: seq<Window>, x: nat, y: nat)
    requires (forall w <- ws :: w.Sound()) && Bare(ws, x, y)
    ensures Painted(ws, x, y) == BACKGROUND
  {
    if ws != [] {
      assert forall w <- ws[..|ws| - 1] :: w in ws;
      PaintedBare(ws[..|ws| - 1], x, y);
    }
  }

  lemma {:induction false} PaintedLast(ws: seq<Window>, a: nat, x: nat, y: nat)
    requires (forall w <- ws :: w.Sound()) && a < |ws| && CellAt(ws[a], x, y).Some?
    requires forall b :: a < b < |ws| ==> CellAt(ws[b], x, y) == None
    ensures Painted(ws, x, y) == CellAt(ws[a], x, y).value
  {
    if a < |ws| - 1 {
      PaintedLast(ws[..|ws| - 1], a, x, y);
    }
  }

  // ----- The code

  /** window_put_char */
  method PutChar(frame: array<nat>, w: byte, h: byte, x: byte, y: byte, c: char, attr: byte)
    requires frame.Length == w * h
    modifies frame
    ensures frame[..] == WithChar(old(frame[..]), w, h, x, y, MakeCell(c, attr))
  {
    if x >= w || y >= h { return; }
    CellIndex(w, h, x, y);
    var index := y * w + x;
    frame[index] := MakeCell(c, attr);
  }

  /** The bubble sort over the first `count` windows. */
  method SortWindows(list: array<Window>, count: nat) returns (ghost order: seq<nat>, ghost place: seq<nat>)
    requires count <= list.Length
    modifies list
    ensures Arranged(old(list[..count]), list[..count], order, place)
    ensures Stable(list[..count], order) && SortedFrom(list[..count], 0)
    ensures list[count..] == old(list[count..])
  {
    ghost var ws := list[..count];
    order, place := seq(count, k => k), seq(count, k => k);
    for i := 0 to count
      invariant Arranged(ws, list[..count], order, place) && Stable(list[..count], order)
      invariant SortedFrom(list[..count], count - i) && list[count..] == old(list[count..])
    {
      order, place := BubblePass(list, count, i, ws, order, place);
    }
  }

  /** One pass: carries the largest of the unsorted windows to their end. */
  method BubblePass(list: array<Window>, count: nat, i: nat, ghost ws: seq<Window>, ghost order0: seq<nat>,
                    ghost place0: seq<nat>) returns (ghost order: seq<nat>, ghost place: seq<nat>)
    requires i < count <= list.Length
    requires Arranged(ws, list[..count], order0, place0) && Stable(list[..count], order0)
    requires SortedFrom(list[..count], count - i)
    modifies list
    ensures Arranged(ws, list[..count], order, place) && Stable(list[..count], order)
    ensures SortedFrom(list[..count], count - i - 1) && list[count..] == old(list[count..])
  {
    order, place := order0, place0;
    for j := 0 to count - i - 1
      invariant Arranged(ws, list[..count], order, place) && Stable(list[..count], order)
      invariant SortedFrom(list[..count], count - i)
      invariant forall a :: 0 <= a < j ==> list[a].z <= list[j].z
      invariant list[count..] == old(list[count..])
    {
      ghost var now := list[..count];
      if list[j].z > list[j + 1].z {
        SwapKeeps(ws, now, order, place, j, count - i);
        list[j], list[j + 1] := list[j + 1], list[j];
        ghost var p, q := order[j], order[j + 1];
        order := order[j := q][j + 1 := p];
        place := place[p := j + 1][q := j];
        assert list[..count] == now[j := now[j + 1]][j + 1 := now[j]];
      }
    }
  }

  /** framebuffer_clear over the whole screen. */
  method ClearScreen(screen: array<nat>)
    requires screen.Length == WIDTH * HEIGHT
    modifies screen
    ensures forall k :: 0 <= k < screen.Length ==> screen[k] == BACKGROUND
  {
    for i := 0 to WIDTH * HEIGHT
      invariant forall k :: 0 <= k < i ==> screen[k] == BACKGROUND
    {
      screen[i] := BACKGROUND;
    }
  }

  predicate OnScreen(x: int, y: int) { 0 <= x < WIDTH && 0 <= y < HEIGHT }

  function Pixel(screen: seq<nat>, x: int, y: int): nat
    requires |screen| == WIDTH * HEIGHT && OnScreen(x, y)
  {
    screen[y * WIDTH + x]
  }

  /** A cell of the screen after window rows up to `rows`, and up to `cols` cells of the next, are drawn. */
  function Over(win: Window, rows: nat, cols: nat, x: nat, y: nat, below: nat): nat
    requires win.Sound()
  {
    var cell := CellAt(win, x, y);
    if cell.Some? && (y < win.y + rows || (y == win.y + rows && x < win.x + cols)) then cell.value else below
  }

  /** blit_window_to_wm: clipped to the screen, cell 0 transparent. */
  method Blit(win: Window, screen: array<nat>)
    requires win.Sound() && screen.Length == WIDTH * HEIGHT
    modifies screen
    ensures forall x, y :: OnScreen(x, y) ==>
              Pixel(screen[..], x, y) == Over(win, win.h, 0, x, y, Pixel(old(screen[..]), x, y))
  {
    if win.cells == None || win.w == 0 || win.h == 0 { return; }
    for wy := 0 to win.h
      invariant forall x, y :: OnScreen(x, y) ==>
        Pixel(screen[..], x, y) == Over(win, wy, 0, x, y, Pixel(old(screen[..]), x, y))
    {
      var sy := win.y + wy;
      if sy < HEIGHT {
        BlitRow(win, wy, screen);
      }
    }
  }

  method BlitRow(win: Window, wy: nat, screen: array<nat>)
    requires win.Sound() && win.cells.Some? && wy < win.h && win.y + wy < HEIGHT
    requires screen.Length == WIDTH * HEIGHT
    modifies screen
    ensures forall x, y :: OnScreen(x, y) ==>
              Pixel(screen[..], x, y) ==
              if y == win.y + wy then Over(win, wy + 1, 0, x, y, Pixel(old(screen[..]), x, y))
              else Pixel(old(screen[..]), x, y)
  {
    var sy := win.y + wy;
    for wx := 0 to win.w
      invariant forall x, y :: OnScreen(x, y) ==>
        Pixel(screen[..], x, y) ==
        if y == sy then Over(win, wy, wx, x, y, Pixel(old(screen[..]), x, y)) else Pixel(old(screen[..]), x, y)
    {
      var sx := win.x + wx;
      if sx < WIDTH {
        CellIndex(win.w, win.h, wx, wy);
        var cell := win.cells.value[wy * win.w + wx];
        if cell != 0 {
          screen[sy * WIDTH + sx] := cell;
        }
      }
    }
  }

  /** draw_gui_framebuffer: with at least one window, every cell shows the topmost window there, or the
      background. */
  method DrawGui(list: array<Window>, count: nat, screen: array<nat>)
    requires count <= list.Length && screen.Length == WIDTH * HEIGHT
    requires forall w <- list[..count] :: w.Sound()
    modifies list, screen
    ensures count == 0 ==> screen[..] == old(screen[..]) && list[..] == old(list[..])
    ensures count > 0 ==>
              exists order, place :: Arranged(old(list[..count]), list[..count], order, place)
                                     && Stable(list[..count], order) && SortedFrom(list[..count], 0)
    ensures list[count..] == old(list[count..])
    ensures count > 0 ==> forall x, y :: OnScreen(x, y) ==>
              ShowsTop(old(list[..count]), x, y, Pixel(screen[..], x, y))
  {
    if count == 0 { return; }
    ClearScreen(screen);
    ghost var ws := list[..count];
    ghost var order, place := SortWindows(list, count);
    ghost var now := list[..count];
    ArrangedSound(ws, now, order, place);
    PaintAll(list, count, screen);
    AllShowTop(ws, now, order, place, screen[..]);
    assert Arranged(old(list[..count]), list[..count], order, place);
  }

  lemma ArrangedSound(ws: seq<Window>, now: seq<Window>, order: seq<nat>, place: seq<nat>)
    requires (forall w <- ws :: w.Sound()) && Arranged(ws, now, order, place)
    ensures forall w <- now :: w.Sound()
  {
    assert forall a :: 0 <= a < |now| ==> now[a] == ws[order[a]] && ws[order[a]] in ws;
  }

  /** A screen painted from the sorted list shows the topmost windows of the original one. */
  lemma AllShowTop(ws: seq<Window>, now: seq<Window>, order: seq<nat>, place: seq<nat>, screen: seq<nat>)
    requires (forall w <- ws :: w.Sound()) && (forall w <- now :: w.Sound()) && |screen| == WIDTH * HEIGHT
    requires Arranged(ws, now, order, place) && Stable(now, order) && SortedFrom(now, 0)
    requires forall x, y :: OnScreen(x, y) ==> Pixel(screen, x, y) == Painted(now, x, y)
    ensures forall x, y :: OnScreen(x, y) ==> ShowsTop(ws, x, y, Pixel(screen, x, y))
  {
    forall x, y | OnScreen(x, y)
      ensures ShowsTop(ws, x, y, Pixel(screen, x, y))
    {
      PaintedIsTopmost(ws, now, order, place, x, y);
    }
  }

  /** The painting loop, on a cleared screen. */
  method PaintAll(list: array<Window>, count: nat, screen: array<nat>)
    requires count <= list.Length && screen.Length == WIDTH * HEIGHT
    requires forall w <- list[..count] :: w.Sound()
    requires forall k :: 0 <= k < screen.Length ==> screen[k] == BACKGROUND
    modifies screen
    ensures forall x, y :: OnScreen(x, y) ==> Pixel(screen[..], x, y) == Painted(list[..count], x, y)
  {
    ghost var ws := list[..count];
    for i := 0 to count
      invariant forall x, y :: OnScreen(x, y) ==> Pixel(screen[..], x, y) == Painted(ws[..i], x, y)
    {
      assert ws[..i + 1][..i] == ws[..i] && ws[i] == list[i];
      Blit(list[i], screen);
      forall x, y | OnScreen(x, y)
        ensures Pixel(screen[..], x, y) == Painted(ws[..i + 1], x, y)
      {
        WholeWindow(ws[i], x, y, Painted(ws[..i], x, y));
      }
    }
    assert ws[..count] == ws;
  }

  /** After its last row a window has shown every cell it has. */
  lemma WholeWindow(win: Window, x: nat, y: nat, below: nat)
    requires win.Sound()
    ensures Over(win, win.h, 0, x, y, below) == if CellAt(win, x, y).Some? then CellAt(win, x, y).value else below
  {
  }

  /** The shown value at a position is right for the original window list. */
  ghost predicate ShowsTop(ws: seq<Window>, x: nat, y: nat, shown: nat)
    requires forall w <- ws :: w.Sound()
  {
    && (Bare(ws, x, y) ==> shown == BACKGROUND)
    && forall k :: 0 <= k < |ws| && Topmost(ws, k, x, y) ==> shown == CellAt(ws[k], x, y).value
  }
}
