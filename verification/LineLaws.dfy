/** What the line editor's keys do to a whole raw stream, and what its echo shows. */
module LineLaws {
  import opened Keyboard
  import opened RingBuffer
  import opened LineEditor

  /** A key that types a character, neither backspace nor a line end. */
  predicate Types(c: char) { c != BACKSPACE && c != '\n' && c != '\r' }

  /** A raw stream in two parts: the second goes on with the line that the first has begun. */
  lemma {:induction false} LinesSplit(line: string, a: string, b: string)
    ensures Lines(line, a + b) == Lines(line, a) + Lines(EditAll(line, a), b)
    ensures EditAll(line, a + b) == EditAll(EditAll(line, a), b)
    decreases |a|
  {
    if a == "" {
      assert a + b == b;
    } else {
      assert (a + b)[1..] == a[1..] + b;
      LinesSplit(Edit(line, a[0]), a[1..], b);
    }
  }

  /** Keys that bring the line back to what it was, without ending it, might as well not be there. */
  lemma NoTrace(line: string, before: string, keys: string, after: string)
    requires EditAll(EditAll(line, before), keys) == EditAll(line, before)
    requires Lines(EditAll(line, before), keys) == []
    ensures Lines(line, before + keys + after) == Lines(line, before + after)
    ensures EditAll(line, before + keys + after) == EditAll(line, before + after)
  {
    LinesSplit(line, before, keys);
    LinesSplit(line, before + keys, after);
    LinesSplit(line, before, after);
    assert Lines(line, before) + [] == Lines(line, before);
  }

  lemma KeyAlone(line: string, c: char)
    ensures EditAll(line, [c]) == Edit(line, c)
    ensures Lines(line, [c]) == if IsEnd(c) then [line] else []
  {
    assert [c][1..] == "";
  }

  /** Backspace takes back the character typed before it, anywhere in a stream, and nothing else. */
  lemma BackspaceTakesBack(line: string, before: string, c: char, after: string)
    requires Types(c) && |EditAll(line, before)| < LINE_MAX
    ensures Lines(line, before + [c, BACKSPACE] + after) == Lines(line, before + after)
    ensures EditAll(line, before + [c, BACKSPACE] + after) == EditAll(line, before + after)
  {
    var begun := EditAll(line, before);
    assert [c, BACKSPACE] == [c] + [BACKSPACE];
    LinesSplit(begun, [c], [BACKSPACE]);
    KeyAlone(begun, c);
    KeyAlone(begun + [c], BACKSPACE);
    NoTrace(line, before, [c, BACKSPACE], after);
  }

  /** On an empty line backspace does nothing. */
  lemma BackspaceOnEmptyLine(line: string, before: string, after: string)
    requires EditAll(line, before) == ""
    ensures Lines(line, before + [BACKSPACE] + after) == Lines(line, before + after)
    ensures EditAll(line, before + [BACKSPACE] + after) == EditAll(line, before + after)
  {
    KeyAlone("", BACKSPACE);
    NoTrace(line, before, [BACKSPACE], after);
  }

  /** A full line takes no further character. */
  lemma FullLineIgnores(line: string, before: string, c: char, after: string)
    requires Types(c) && |EditAll(line, before)| == LINE_MAX
    ensures Lines(line, before + [c] + after) == Lines(line, before + after)
    ensures EditAll(line, before + [c] + after) == EditAll(line, before + after)
  {
    KeyAlone(EditAll(line, before), c);
    NoTrace(line, before, [c], after);
  }

  /** A newline or a carriage return, and no other key, ends the line: what was begun becomes the next
      line, and an empty one begins. */
  lemma EndKeyDelivers(line: string, before: string, c: char, after: string)
    requires c == '\n' || c == '\r'
    ensures Lines(line, before + [c] + after) == Lines(line, before) + [EditAll(line, before)] + Lines("", after)
    ensures EditAll(line, before + [c] + after) == EditAll("", after)
  {
    LinesSplit(line, before, [c]);
    LinesSplit(line, before + [c], after);
    KeyAlone(EditAll(line, before), c);
  }

  /** A text typed on an empty line stands there as it was typed. */
  lemma {:induction false} TextStands(text: string)
    requires Plain(text)
    ensures EditAll("", text) == text && Lines("", text) == []
    decreases |text|
  {
    if text != "" {
      var init, c := text[..|text| - 1], text[|text| - 1];
      assert text == init + [c];
      TextStands(init);
      LinesSplit("", init, [c]);
      KeyAlone(init, c);
    }
  }

  // ----- What the echo shows

  /** A row of a display, the place of the cursor in it, and how many rows were begun before. */
  datatype Strip = Strip(text: string, at: nat, row: nat) {
    predicate Sound() { at <= |text| }

    /** A character overwrites what is at the cursor; backspace only moves the cursor. */
    function Show(c: char): (r: Strip)
      requires Sound()
      ensures r.Sound()
    {
      if c == BACKSPACE then this.(at := if at > 0 then at - 1 else 0)
      else if c == '\n' then Strip("", 0, row + 1)
      else Strip(text[..at] + [c] + (if at < |text| then text[at + 1..] else ""), at + 1, row)
    }

    function ShowAll(s: string): (r: Strip)
      requires Sound()
      ensures r.Sound()
      decreases |s|
    {
      if s == "" then this else Show(s[0]).ShowAll(s[1..])
    }

    /** The row shows the line, with the cursor behind it and blanks after the cursor. */
    ghost predicate Shows(line: string) {
      at == |line| <= |text| && text[..at] == line && forall k :: at <= k < |text| ==> text[k] == ' '
    }
  }

  lemma {:induction false} ShowInTwo(d: Strip, s: string, t: string)
    requires d.Sound()
    ensures d.ShowAll(s + t) == d.ShowAll(s).ShowAll(t)
    decreases |s|
  {
    if s == "" {
      assert s + t == t;
    } else {
      assert (s + t)[1..] == s[1..] + t;
      ShowInTwo(d.Show(s[0]), s[1..], t);
    }
  }

  /** The echo of a key keeps the line being edited on display, in a new row after a line end. */
  lemma EchoShows(d: Strip, line: string, c: char)
    requires d.Sound() && d.Shows(line)
    ensures var e := d.ShowAll(Echo(line, c));
            && e.Shows(Edit(line, c))
            && e.row == d.row + if c == '\n' || c == '\r' then 1 else 0
  {
    if c == BACKSPACE {
      if line != "" { RuboutShows(d, line); }
    } else if IsEnd(c) {
      assert "\n"[1..] == "";
    } else {
      assert [c][1..] == "";
    }
  }

  lemma RuboutShows(d: Strip, line: string)
    requires d.Sound() && d.Shows(line) && line != ""
    ensures var e := d.ShowAll([BACKSPACE, ' ', BACKSPACE]);
            e.Shows(line[..|line| - 1]) && e.row == d.row
  {
    var s: string := [BACKSPACE, ' ', BACKSPACE];
    assert s[1..] == [' ', BACKSPACE] && s[1..][1..] == [BACKSPACE] && [BACKSPACE][1..] == "";
    var d1 := d.Show(BACKSPACE);
    var e := d1.Show(' ').Show(BACKSPACE);
    assert d1.ShowAll([' ', BACKSPACE]) == d1.Show(' ').ShowAll([BACKSPACE]) == e.ShowAll("") == e;
    assert e.text == d.text[..d.at - 1] + [' '] + d.text[d.at..];
  }

  /** Everything that is echoed for a raw stream. */
  function Echoes(line: string, raw: string): string
    decreases |raw|
  {
    if raw == "" then "" else Echo(line, raw[0]) + Echoes(Edit(line, raw[0]), raw[1..])
  }

  /** After any raw stream the display shows the line begun, one row for every line ended. */
  lemma {:induction false} EchoesShow(d: Strip, line: string, raw: string)
    requires d.Sound() && d.Shows(line)
    ensures var e := d.ShowAll(Echoes(line, raw));
            && e.Shows(EditAll(line, raw))
            && e.row == d.row + |Lines(line, raw)|
    decreases |raw|
  {
    if raw != "" {
      var next := d.ShowAll(Echo(line, raw[0]));
      EchoShows(d, line, raw[0]);
      ShowInTwo(d, Echo(line, raw[0]), Echoes(Edit(line, raw[0]), raw[1..]));
      EchoesShow(next, Edit(line, raw[0]), raw[1..]);
    }
  }

  /** The worker's output is exactly that echo, whenever and only when it fits behind what waits; with
      echo off there is none. */
  lemma {:induction false} StepsEcho(w: Worker, raw: string)
    requires |w.output| <= CAPACITY
    ensures Steps(w, raw, false).output == w.output
    ensures |Steps(w, raw, true).output| <= CAPACITY
    ensures Steps(w, raw, true).output == w.output + Echoes(w.line, raw) <==>
            |w.output| + |Echoes(w.line, raw)| <= CAPACITY
    decreases |raw|
  {
    if raw == "" {
      assert w.output + "" == w.output;
    } else {
      var c := raw[0];
      var echoed, rest := Echo(w.line, c), Echoes(Edit(w.line, c), raw[1..]);
      var next := Step(w, c, true);
      PushAllPrefix(w.output, echoed);
      LineFits(w.output, echoed, rest, next.output);
      StepsEcho(next, raw[1..]);
      StepsEcho(Step(w, c, false), raw[1..]);
    }
  }

  /** The line that the worker's buffer holds is the one begun, with echo on or off. */
  lemma {:induction false} StepsEdit(w: Worker, raw: string, echo: bool)
    ensures Steps(w, raw, echo).line == EditAll(w.line, raw)
    decreases |raw|
  {
    if raw != "" { StepsEdit(Step(w, raw[0], echo), raw[1..], echo); }
  }
}
