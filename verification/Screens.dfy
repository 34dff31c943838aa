/** The text screen that the console keeps, and the unbounded transcript that it is a window of. */
module Screens {
  import opened Bytes

  const BLANK: byte := 0x20

  type Line = seq<byte>

  /** A screen of text.  The cursor is at column cx of line cy. */
  datatype Screen = Screen(lines: seq<Line>, cx: nat, cy: nat)

  function BlankLine(cols: nat): (l: Line)
    ensures |l| == cols && forall i :: 0 <= i < cols ==> l[i] == BLANK
  {
    seq(cols, _ => BLANK)
  }

  function BlankScreen(cols: nat, rows: nat): Screen {
    Screen(seq(rows, _ => BlankLine(cols)), 0, 0)
  }

  ghost predicate ValidScreen(s: Screen, cols: nat, rows: nat) {
    && |s.lines| == rows && (forall r :: 0 <= r < rows ==> |s.lines[r]| == cols)
    && s.cx < cols && s.cy < rows
  }

  predicate Printable(c: byte) { 0x20 <= c < 0x7F }

  function WithChar(l: Line, x: nat, c: byte): (r: Line)
    requires x < |l|
    ensures |r| == |l| && r[x] == c && forall i :: 0 <= i < |l| && i != x ==> r[i] == l[i]
  {
    l[x := c]
  }

  /** The text after c was drawn at the cursor; the cursor does not move. */
  function Drawn(s: Screen, c: byte): Screen
    requires s.cy < |s.lines| && s.cx < |s.lines[s.cy]|
  {
    s.(lines := s.lines[s.cy := WithChar(s.lines[s.cy], s.cx, c)])
  }

  /** The effect of one character, before wrapping and scrolling. */
  function Typed(s: Screen, c: byte): (t: Screen)
    requires s.cy < |s.lines| && s.cx < |s.lines[s.cy]|
    ensures |t.lines| == |s.lines| && forall r :: 0 <= r < |s.lines| ==> |t.lines[r]| == |s.lines[r]|
    ensures t.cx <= s.cx + 8 && s.cy <= t.cy <= s.cy + 1 && (t.cy > s.cy ==> t.cx == 0)
  {
    if c == 0x0A then s.(cx := 0, cy := s.cy + 1)
    else if c == 0x0D then s.(cx := 0)
    else if c == 0x09 then s.(cx := (s.cx + 8) / 8 * 8)
    else if c == 0x08 then if s.cx > 0 then Drawn(s.(cx := s.cx - 1), BLANK) else s
    else if Printable(c) then Drawn(s, c).(cx := s.cx + 1)
    else s
  }

  /** A cursor behind the last column moves to the next line. */
  function Wrapped(s: Screen, cols: nat): Screen {
    if s.cx >= cols then s.(cx := 0, cy := s.cy + 1) else s
  }

  /** A cursor below the last line drops the first one. */
  function Scrolled(s: Screen, cols: nat, rows: nat): Screen
    requires |s.lines| == rows > 0
  {
    if s.cy >= rows then Screen(s.lines[1..] + [BlankLine(cols)], s.cx, s.cy - 1) else s
  }

  /** One character on the screen. */
  function Put(s: Screen, cols: nat, rows: nat, c: byte): (t: Screen)
    requires ValidScreen(s, cols, rows)
    ensures ValidScreen(t, cols, rows)
  {
    Scrolled(Wrapped(Typed(s, c), cols), cols, rows)
  }

  /** The cursor went to the beginning of the next line of `lines`; behind the last line, these have
      scrolled by one. */
  ghost predicate NextLine(s: Screen, t: Screen, lines: seq<Line>, cols: nat, rows: nat) {
    && t.cx == 0 && |lines| == rows > 0
    && if s.cy + 1 < rows then t.cy == s.cy + 1 && t.lines == lines
       else t.cy == rows - 1 && t.lines == lines[1..] + [seq(cols, _ => 0x20)]
  }

  /** The lines with c in the cell at column x of line y. */
  function Overwritten(lines: seq<Line>, y: nat, x: nat, c: byte): (r: seq<Line>)
    requires y < |lines| && x < |lines[y]|
    ensures |r| == |lines| && forall k :: 0 <= k < |r| && k != y ==> r[k] == lines[k]
    ensures |r[y]| == |lines[y]| && forall k :: 0 <= k < |r[y]| ==> r[y][k] == if k == x then c else lines[y][k]
  {
    var line: Line := lines[y][x := c];
    lines[y := line]
  }

  /** What each character does, by its code: newline, carriage return, tab to the next multiple of
      eight, backspace, a printable character, and any other, which does nothing. */
  lemma PutByCode(s: Screen, cols: nat, rows: nat, c: byte)
    requires ValidScreen(s, cols, rows)
    ensures var t, tab := Put(s, cols, rows, c), s.cx - s.cx % 8 + 8;
      && (c == 0x0A ==> NextLine(s, t, s.lines, cols, rows))
      && (c == 0x0D ==> t == Screen(s.lines, 0, s.cy))
      && (c == 0x09 ==> if tab < cols then t == Screen(s.lines, tab, s.cy) else NextLine(s, t, s.lines, cols, rows))
      && (c == 0x08 ==> t == if s.cx == 0 then s
                             else Screen(Overwritten(s.lines, s.cy, s.cx - 1, 0x20), s.cx - 1, s.cy))
      && (0x20 <= c <= 0x7E ==>
            var lines := Overwritten(s.lines, s.cy, s.cx, c);
            if s.cx + 1 < cols then t == Screen(lines, s.cx + 1, s.cy) else NextLine(s, t, lines, cols, rows))
      && (c != 0x0A && c != 0x0D && c != 0x09 && c != 0x08 && !(0x20 <= c <= 0x7E) ==> t == s)
  {
    assert (s.cx + 8) / 8 * 8 == s.cx - s.cx % 8 + 8;
    assert BlankLine(cols) == seq(cols, _ => 0x20);
  }

  lemma PutPrints(s: Screen, cols: nat, rows: nat, c: byte)
    requires ValidScreen(s, cols, rows) && 0x20 <= c <= 0x7E && (s.cx + 1 < cols || s.cy + 1 < rows)
    ensures Put(s, cols, rows, c).lines[s.cy][s.cx] == c
  {
  }

  /** A stream of characters on the screen. */
  function PutAll(s: Screen, cols: nat, rows: nat, text: seq<byte>): (t: Screen)
    requires ValidScreen(s, cols, rows)
    ensures ValidScreen(t, cols, rows)
    decreases |text|
  {
    if text == [] then s else PutAll(Put(s, cols, rows, text[0]), cols, rows, text[1..])
  }

  lemma {:induction false} PutAllConcat(s: Screen, cols: nat, rows: nat, a: seq<byte>, b: seq<byte>)
    requires ValidScreen(s, cols, rows)
    ensures PutAll(s, cols, rows, a + b) == PutAll(PutAll(s, cols, rows, a), cols, rows, b)
    decreases |a|
  {
    if a == [] {
      assert a + b == b;
    } else {
      assert (a + b)[1..] == a[1..] + b;
      PutAllConcat(Put(s, cols, rows, a[0]), cols, rows, a[1..], b);
    }
  }

  // ----- the transcript -----

  /** Endless paper: the last line is the one being written, and nothing ever scrolls away. */
  datatype Paper = Paper(lines: seq<Line>, cx: nat)

  ghost predicate ValidPaper(p: Paper, cols: nat) {
    p.lines != [] && (forall r :: 0 <= r < |p.lines| ==> |p.lines[r]| == cols) && p.cx < cols
  }

  function BlankPaper(cols: nat): Paper { Paper([BlankLine(cols)], 0) }

  function LineFeed(p: Paper, cols: nat): Paper { Paper(p.lines + [BlankLine(cols)], 0) }

  /** The last line with c at column x. */
  function Inked(p: Paper, x: nat, c: byte): Paper
    requires p.lines != [] && x < |p.lines[|p.lines| - 1]|
  {
    var n := |p.lines| - 1;
    p.(lines := p.lines[n := WithChar(p.lines[n], x, c)])
  }

  /** One character on paper. */
  function Write(p: Paper, cols: nat, c: byte): (q: Paper)
    requires ValidPaper(p, cols)
    ensures ValidPaper(q, cols)
  {
    if c == 0x0A then LineFeed(p, cols)
    else if c == 0x0D then p.(cx := 0)
    else if c == 0x09 then
      var x := p.cx + 8 - p.cx % 8;
      if x >= cols then LineFeed(p, cols) else p.(cx := x)
    else if c == 0x08 then if p.cx == 0 then p else Inked(p, p.cx - 1, BLANK).(cx := p.cx - 1)
    else if !Printable(c) then p
    else
      var q := Inked(p, p.cx, c);
      if p.cx + 1 == cols then LineFeed(q, cols) else q.(cx := p.cx + 1)
  }

  function WriteAll(p: Paper, cols: nat, text: seq<byte>): (q: Paper)
    requires ValidPaper(p, cols)
    ensures ValidPaper(q, cols)
    decreases |text|
  {
    if text == [] then p else WriteAll(Write(p, cols, text[0]), cols, text[1..])
  }

  /** Number of lines of the paper that are above the screen. */
  function Above(p: Paper, rows: nat): nat {
    if |p.lines| > rows then |p.lines| - rows else 0
  }

  /** The screen shows the last `rows` lines of the paper, blank lines below them while there are
      fewer, and the cursor stands where the writing is. */
  ghost predicate IsWindow(s: Screen, p: Paper, cols: nat, rows: nat)
    requires ValidScreen(s, cols, rows) && ValidPaper(p, cols)
  {
    && s.cx == p.cx && s.cy == |p.lines| - 1 - Above(p, rows)
    && forall r :: 0 <= r < rows ==>
         s.lines[r] == if Above(p, rows) + r < |p.lines| then p.lines[Above(p, rows) + r] else BlankLine(cols)
  }

  lemma InkStaysWindow(s: Screen, p: Paper, cols: nat, rows: nat, x: nat, c: byte, y: nat)
    requires ValidScreen(s, cols, rows) && ValidPaper(p, cols) && IsWindow(s, p, cols, rows) && x < cols && y < cols
    ensures var t, q := Drawn(s.(cx := x), c).(cx := y), Inked(p, x, c).(cx := y);
      ValidScreen(t, cols, rows) && ValidPaper(q, cols) && IsWindow(t, q, cols, rows)
  {
    assert s.lines[s.cy] == p.lines[|p.lines| - 1];
  }

  lemma FeedStaysWindow(s: Screen, p: Paper, cols: nat, rows: nat)
    requires ValidScreen(s, cols, rows) && ValidPaper(p, cols) && IsWindow(s, p, cols, rows)
    ensures var t, q := Scrolled(s.(cx := 0, cy := s.cy + 1), cols, rows), LineFeed(p, cols);
      ValidScreen(t, cols, rows) && ValidPaper(q, cols) && IsWindow(t, q, cols, rows)
  {
    var t, q := Scrolled(s.(cx := 0, cy := s.cy + 1), cols, rows), LineFeed(p, cols);
    if s.cy + 1 < rows {
      assert t.lines == s.lines;
    } else {
      forall r | 0 <= r < rows ensures t.lines[r] == q.lines[Above(q, rows) + r] {
        if r + 1 < rows {
          assert t.lines[r] == s.lines[r + 1];
        }
      }
    }
  }

  lemma PrintStaysWindow(s: Screen, p: Paper, cols: nat, rows: nat, c: byte)
    requires ValidScreen(s, cols, rows) && ValidPaper(p, cols) && IsWindow(s, p, cols, rows) && Printable(c)
    ensures IsWindow(Put(s, cols, rows, c), Write(p, cols, c), cols, rows)
  {
    if s.cx + 1 >= cols {
      InkStaysWindow(s, p, cols, rows, s.cx, c, s.cx);
      FeedStaysWindow(Drawn(s, c), Inked(p, p.cx, c), cols, rows);
    } else {
      InkStaysWindow(s, p, cols, rows, s.cx, c, s.cx + 1);
    }
  }

  lemma TabStaysWindow(s: Screen, p: Paper, cols: nat, rows: nat)
    requires ValidScreen(s, cols, rows) && ValidPaper(p, cols) && IsWindow(s, p, cols, rows)
    ensures IsWindow(Put(s, cols, rows, 0x09), Write(p, cols, 0x09), cols, rows)
  {
    assert (s.cx + 8) / 8 * 8 == s.cx + 8 - s.cx % 8;
    if (s.cx + 8) / 8 * 8 >= cols {
      FeedStaysWindow(s, p, cols, rows);
    }
  }

  /** One character keeps screen and paper in step. */
  lemma PutStaysWindow(s: Screen, p: Paper, cols: nat, rows: nat, c: byte)
    requires ValidScreen(s, cols, rows) && ValidPaper(p, cols) && IsWindow(s, p, cols, rows)
    ensures IsWindow(Put(s, cols, rows, c), Write(p, cols, c), cols, rows)
  {
    if c == 0x0A {
      FeedStaysWindow(s, p, cols, rows);
    } else if c == 0x08 && s.cx > 0 {
      InkStaysWindow(s, p, cols, rows, s.cx - 1, BLANK, s.cx - 1);
    } else if c == 0x09 {
      TabStaysWindow(s, p, cols, rows);
    } else if Printable(c) {
      PrintStaysWindow(s, p, cols, rows, c);
    }
  }

  lemma {:induction false} PutAllStaysWindow(s: Screen, p: Paper, cols: nat, rows: nat, text: seq<byte>)
    requires ValidScreen(s, cols, rows) && ValidPaper(p, cols) && IsWindow(s, p, cols, rows)
    ensures IsWindow(PutAll(s, cols, rows, text), WriteAll(p, cols, text), cols, rows)
    decreases |text|
  {
    if text != [] {
      PutStaysWindow(s, p, cols, rows, text[0]);
      PutAllStaysWindow(Put(s, cols, rows, text[0]), Write(p, cols, text[0]), cols, rows, text[1..]);
    }
  }

  /** After any stream of characters the screen shows exactly the end of its transcript. */
  lemma ScreenIsEndOfTranscript(cols: nat, rows: nat, text: seq<byte>)
    requires cols > 0 && rows > 0
    ensures ValidScreen(BlankScreen(cols, rows), cols, rows)
    ensures IsWindow(PutAll(BlankScreen(cols, rows), cols, rows, text), WriteAll(BlankPaper(cols), cols, text),
                     cols, rows)
  {
    PutAllStaysWindow(BlankScreen(cols, rows), BlankPaper(cols), cols, rows, text);
  }
}
