/** How a screen of text appears as pixels in a framebuffer of 32-bit words. */
module Rendering {
  import opened Bytes
  import opened Strides
  import opened Screens

  /** Eight rows of eight bits for each of 128 characters, lowest bit leftmost. */
  type Font = seq<seq<byte>>

  /** A framebuffer of `height` rows of `pitch` pixels, of which the first `width` are visible. */
  datatype Display = Display(width: nat, height: nat, pitch: nat, font: Font, fg: nat, bg: nat)

  ghost predicate ValidFont(f: Font) {
    && |f| == 128 && (forall c :: 0 <= c < 128 ==> |f[c]| == 8)
    && forall y :: 0 <= y < 8 ==> f[0x20][y] == 0
  }

  ghost predicate ValidDisplay(dp: Display) {
    8 <= dp.width <= dp.pitch && 8 <= dp.height && ValidFont(dp.font) && Stride(dp.pitch, dp.height) < U32
  }

  function Cols(dp: Display): nat { dp.width / 8 }
  function Rows(dp: Display): nat { dp.height / 8 }

  /** Bit x of a row of a glyph: row & (1 << x). */
  predicate Bit(row: nat, x: nat) {
    if x == 0 then row % 2 == 1 else Bit(row / 2, x - 1)
  }

  lemma {:induction false} NoBitsInZero(x: nat)
    ensures !Bit(0, x)
  {
    if x > 0 {
      NoBitsInZero(x - 1);
    }
  }

  /** The colour of pixel (y, x) of the glyph of c. */
  function Ink(dp: Display, c: byte, y: nat, x: nat): nat
    requires y < 8 && x < 8
  {
    if c < |dp.font| && y < |dp.font[c]| && Bit(dp.font[c][y], x) then dp.fg else dp.bg
  }

  lemma BlankInk(dp: Display, y: nat, x: nat)
    requires ValidDisplay(dp) && y < 8 && x < 8
    ensures Ink(dp, BLANK, y, x) == dp.bg
  {
    NoBitsInZero(x);
  }

  /** The colour of pixel (y, x) when `lines` are shown: glyphs side by side, background elsewhere. */
  function Color(dp: Display, lines: seq<Line>, y: nat, x: nat): nat {
    if y / 8 < |lines| && x / 8 < |lines[y / 8]| then Ink(dp, lines[y / 8][x / 8], y % 8, x % 8) else dp.bg
  }

  /** Index of pixel (y, x). */
  function At(dp: Display, y: nat, x: nat): nat { Stride(dp.pitch, y) + x }

  lemma AtInRange(dp: Display, y: nat, x: nat)
    requires y < dp.height && x < dp.pitch
    ensures At(dp, y, x) < Stride(dp.pitch, dp.height)
  {
    StrideMonotone(dp.pitch, y, dp.height);
  }

  ghost predicate ShowsAt(dp: Display, pixels: seq<nat>, lines: seq<Line>, y: nat, x: nat) {
    At(dp, y, x) < |pixels| && pixels[At(dp, y, x)] == Color(dp, lines, y, x)
  }

  /** The framebuffer shows exactly these lines. */
  ghost predicate Shows(dp: Display, pixels: seq<nat>, lines: seq<Line>) {
    && |pixels| == Stride(dp.pitch, dp.height)
    && forall y: nat, x: nat :: y < dp.height && x < dp.pitch ==> ShowsAt(dp, pixels, lines, y, x)
  }

  /** A framebuffer filled with the background shows a blank screen. */
  lemma BlankShows(dp: Display, pixels: seq<nat>)
    requires ValidDisplay(dp) && |pixels| == Stride(dp.pitch, dp.height)
    requires forall i :: 0 <= i < |pixels| ==> pixels[i] == dp.bg
    ensures Shows(dp, pixels, BlankScreen(Cols(dp), Rows(dp)).lines)
  {
    forall y: nat, x: nat | y < dp.height && x < dp.pitch
      ensures ShowsAt(dp, pixels, BlankScreen(Cols(dp), Rows(dp)).lines, y, x)
    {
      AtInRange(dp, y, x);
      BlankInk(dp, y % 8, x % 8);
    }
  }

  // ----- reading the pixels back -----

  /** Eight pixels from `at` on, each in one of the two colours; read as bits, lowest leftmost, those
      in the colour fg make up the byte `row`. */
  ghost predicate RowShows(pixels: seq<nat>, at: nat, fg: nat, bg: nat, row: byte) {
    && at + 8 <= |pixels| && (forall x :: at <= x < at + 8 ==> pixels[x] == fg || pixels[x] == bg)
    && row == (if pixels[at] == fg then 1 else 0) + (if pixels[at + 1] == fg then 2 else 0)
            + (if pixels[at + 2] == fg then 4 else 0) + (if pixels[at + 3] == fg then 8 else 0)
            + (if pixels[at + 4] == fg then 16 else 0) + (if pixels[at + 5] == fg then 32 else 0)
            + (if pixels[at + 6] == fg then 64 else 0) + (if pixels[at + 7] == fg then 128 else 0)
  }

  /** The eight rows of eight pixels of text cell (cy, cx) show the glyph. */
  ghost predicate CellShows(pixels: seq<nat>, pitch: nat, fg: nat, bg: nat, cx: nat, cy: nat, glyph: seq<byte>) {
    |glyph| == 8 &&
    forall y :: 0 <= y < 8 ==> RowShows(pixels, Stride(pitch, 8 * cy + y) + 8 * cx, fg, bg, glyph[y])
  }

  function BitValue(row: nat, x: nat): nat { if Bit(row, x) then 1 else 0 }

  lemma {:induction false} UpperBits(row: nat, x: nat)
    ensures BitValue(row, x + 1) == BitValue(row / 2, x) && row == BitValue(row, 0) + 2 * (row / 2)
  {
  }

  lemma TwoBits(v: nat)
    requires v < 4
    ensures v == BitValue(v, 0) + 2 * BitValue(v, 1)
  {
    UpperBits(v, 0);
  }

  lemma FourBits(v: nat)
    requires v < 16
    ensures v == BitValue(v, 0) + 2 * BitValue(v, 1) + 4 * BitValue(v, 2) + 8 * BitValue(v, 3)
  {
    TwoBits(v / 2 / 2);
    UpperBits(v, 0);
    UpperBits(v, 1);
    UpperBits(v, 2);
    UpperBits(v / 2, 0);
    UpperBits(v / 2, 1);
  }

  lemma SixBits(v: nat)
    requires v < 64
    ensures v == BitValue(v, 0) + 2 * BitValue(v, 1) + 4 * BitValue(v, 2) + 8 * BitValue(v, 3)
               + 16 * BitValue(v, 4) + 32 * BitValue(v, 5)
  {
    FourBits(v / 2 / 2);
    UpperBits(v, 0);
    UpperBits(v / 2, 0);
    forall x: nat | x < 4 ensures BitValue(v, x + 2) == BitValue(v / 2 / 2, x) {
      UpperBits(v, x + 1);
      UpperBits(v / 2, x);
    }
    assert BitValue(v, 0 + 2) == BitValue(v / 2 / 2, 0) && BitValue(v, 1 + 2) == BitValue(v / 2 / 2, 1);
    assert BitValue(v, 2 + 2) == BitValue(v / 2 / 2, 2) && BitValue(v, 3 + 2) == BitValue(v / 2 / 2, 3);
  }

  /** A byte is the sum of its bits. */
  lemma ByteOfBits(v: byte)
    ensures v == BitValue(v, 0) + 2 * BitValue(v, 1) + 4 * BitValue(v, 2) + 8 * BitValue(v, 3)
               + 16 * BitValue(v, 4) + 32 * BitValue(v, 5) + 64 * BitValue(v, 6) + 128 * BitValue(v, 7)
  {
    SixBits(v / 2 / 2);
    UpperBits(v, 0);
    UpperBits(v / 2, 0);
    forall x: nat | x < 6 ensures BitValue(v, x + 2) == BitValue(v / 2 / 2, x) {
      UpperBits(v, x + 1);
      UpperBits(v / 2, x);
    }
    assert BitValue(v, 0 + 2) == BitValue(v / 2 / 2, 0) && BitValue(v, 1 + 2) == BitValue(v / 2 / 2, 1);
    assert BitValue(v, 2 + 2) == BitValue(v / 2 / 2, 2) && BitValue(v, 3 + 2) == BitValue(v / 2 / 2, 3);
    assert BitValue(v, 4 + 2) == BitValue(v / 2 / 2, 4) && BitValue(v, 5 + 2) == BitValue(v / 2 / 2, 5);
  }

  lemma RowFromBits(pixels: seq<nat>, at: nat, fg: nat, bg: nat, row: byte)
    requires at + 8 <= |pixels| && fg != bg
    requires forall x :: at <= x < at + 8 ==> pixels[x] == if Bit(row, x - at) then fg else bg
    ensures RowShows(pixels, at, fg, bg, row)
  {
    ByteOfBits(row);
    forall x | 0 <= x < 8 ensures BitValue(row, x) == if pixels[at + x] == fg then 1 else 0 {
    }
  }

  lemma CellColor(dp: Display, lines: seq<Line>, cx: nat, cy: nat, y: nat, x: nat)
    requires ValidDisplay(dp) && y < 8 && x < 8
    requires cy < |lines| && cx < |lines[cy]| && lines[cy][cx] < 128
    ensures Color(dp, lines, 8 * cy + y, 8 * cx + x)
         == if Bit(dp.font[lines[cy][cx]][y], x) then dp.fg else dp.bg
  {
  }

  lemma RowReadsBack(dp: Display, pixels: seq<nat>, lines: seq<Line>, cx: nat, cy: nat, y: nat)
    requires ValidDisplay(dp) && Shows(dp, pixels, lines) && dp.fg != dp.bg && y < 8
    requires cy < |lines| && cx < |lines[cy]| && lines[cy][cx] < 128
    requires 8 * cx + 8 <= dp.width && 8 * cy + 8 <= dp.height
    ensures RowShows(pixels, Stride(dp.pitch, 8 * cy + y) + 8 * cx, dp.fg, dp.bg, dp.font[lines[cy][cx]][y])
  {
    var at, row := At(dp, 8 * cy + y, 8 * cx), dp.font[lines[cy][cx]][y];
    AtInRange(dp, 8 * cy + y, 8 * cx + 7);
    forall x | at <= x < at + 8 ensures x < |pixels| && pixels[x] == if Bit(row, x - at) then dp.fg else dp.bg {
      assert ShowsAt(dp, pixels, lines, 8 * cy + y, 8 * cx + (x - at));
      CellColor(dp, lines, cx, cy, y, x - at);
    }
    RowFromBits(pixels, at, dp.fg, dp.bg, row);
  }

  /** Every cell of the screen reads back as the glyph of its character. */
  lemma CellReadsBack(dp: Display, pixels: seq<nat>, lines: seq<Line>, cx: nat, cy: nat)
    requires ValidDisplay(dp) && Shows(dp, pixels, lines) && dp.fg != dp.bg
    requires cy < |lines| && cx < |lines[cy]| && lines[cy][cx] < 128
    requires 8 * cx + 8 <= dp.width && 8 * cy + 8 <= dp.height
    ensures CellShows(pixels, dp.pitch, dp.fg, dp.bg, cx, cy, dp.font[lines[cy][cx]])
  {
    forall y: nat | y < 8
      ensures RowShows(pixels, Stride(dp.pitch, 8 * cy + y) + 8 * cx, dp.fg, dp.bg, dp.font[lines[cy][cx]][y])
    {
      RowReadsBack(dp, pixels, lines, cx, cy, y);
    }
  }

  /** Whatever is right of the last column or below the last line has the background colour. */
  lemma MarginIsBlank(dp: Display, pixels: seq<nat>, lines: seq<Line>, y: nat, x: nat)
    requires ValidDisplay(dp) && Shows(dp, pixels, lines) && y < dp.height && x < dp.pitch
    requires forall r :: 0 <= r < |lines| ==> 8 * |lines[r]| <= dp.width
    requires y >= 8 * |lines| || x >= 8 * (dp.width / 8)
    ensures Stride(dp.pitch, y) + x < |pixels| && pixels[Stride(dp.pitch, y) + x] == dp.bg
  {
    assert ShowsAt(dp, pixels, lines, y, x);
  }

  // ----- drawing a glyph -----

  /** Pixel (y, x) is among those drawn when the glyph in text cell (cy, cx) has been drawn down to,
      but excluding, its pixel (dy, dx). */
  predicate Drawing(cx: nat, cy: nat, dy: nat, dx: nat, y: nat, x: nat) {
    && 8 * cy <= y < 8 * cy + 8 && 8 * cx <= x < 8 * cx + 8
    && (y < 8 * cy + dy || (y == 8 * cy + dy && x < 8 * cx + dx))
  }

  ghost predicate DrawnAt(dp: Display, a: seq<nat>, b: seq<nat>, c: byte, cx: nat, cy: nat,
                          dy: nat, dx: nat, y: nat, x: nat)
  {
    && At(dp, y, x) < |a| == |b|
    && b[At(dp, y, x)] == if Drawing(cx, cy, dy, dx, y, x) then Ink(dp, c, y - 8 * cy, x - 8 * cx) else a[At(dp, y, x)]
  }

  ghost predicate PartlyDrawn(dp: Display, a: seq<nat>, b: seq<nat>, c: byte, cx: nat, cy: nat, dy: nat, dx: nat) {
    && |a| == |b| == Stride(dp.pitch, dp.height)
    && forall y: nat, x: nat :: y < dp.height && x < dp.pitch ==> DrawnAt(dp, a, b, c, cx, cy, dy, dx, y, x)
  }

  lemma DrawNothing(dp: Display, a: seq<nat>, c: byte, cx: nat, cy: nat)
    requires |a| == Stride(dp.pitch, dp.height)
    ensures PartlyDrawn(dp, a, a, c, cx, cy, 0, 0)
  {
    forall y: nat, x: nat | y < dp.height && x < dp.pitch ensures DrawnAt(dp, a, a, c, cx, cy, 0, 0, y, x) {
      AtInRange(dp, y, x);
    }
  }

  /** Writing one more pixel of the glyph. */
  lemma DrawPixel(dp: Display, a: seq<nat>, b: seq<nat>, c: byte, cx: nat, cy: nat, dy: nat, dx: nat)
    requires PartlyDrawn(dp, a, b, c, cx, cy, dy, dx) && dy < 8 && dx < 8
    requires 8 * cy + dy < dp.height && 8 * cx + dx < dp.pitch
    ensures At(dp, 8 * cy + dy, 8 * cx + dx) < |b|
    ensures PartlyDrawn(dp, a, b[At(dp, 8 * cy + dy, 8 * cx + dx) := Ink(dp, c, dy, dx)], c, cx, cy, dy, dx + 1)
  {
    AtInRange(dp, 8 * cy + dy, 8 * cx + dx);
    var b' := b[At(dp, 8 * cy + dy, 8 * cx + dx) := Ink(dp, c, dy, dx)];
    var next := dx + 1;
    forall y: nat, x: nat | y < dp.height && x < dp.pitch ensures DrawnAt(dp, a, b', c, cx, cy, dy, next, y, x) {
      assert DrawnAt(dp, a, b, c, cx, cy, dy, dx, y, x);
      StrideInjective(dp.pitch, y, x, 8 * cy + dy, 8 * cx + dx);
    }
  }

  lemma DrawRowEnd(dp: Display, a: seq<nat>, b: seq<nat>, c: byte, cx: nat, cy: nat, dy: nat)
    requires PartlyDrawn(dp, a, b, c, cx, cy, dy, 8)
    ensures PartlyDrawn(dp, a, b, c, cx, cy, dy + 1, 0)
  {
    var next := dy + 1;
    forall y: nat, x: nat | y < dp.height && x < dp.pitch ensures DrawnAt(dp, a, b, c, cx, cy, next, 0, y, x) {
      assert DrawnAt(dp, a, b, c, cx, cy, dy, 8, y, x);
    }
  }

  /** A whole glyph drawn is one character changed in the text. */
  lemma DrawnShows(dp: Display, a: seq<nat>, b: seq<nat>, lines: seq<Line>, c: byte, cx: nat, cy: nat)
    requires Shows(dp, a, lines) && PartlyDrawn(dp, a, b, c, cx, cy, 8, 0)
    requires cy < |lines| && cx < |lines[cy]|
    ensures Shows(dp, b, lines[cy := WithChar(lines[cy], cx, c)])
  {
    var lines' := lines[cy := WithChar(lines[cy], cx, c)];
    forall y: nat, x: nat | y < dp.height && x < dp.pitch ensures ShowsAt(dp, b, lines', y, x) {
      assert DrawnAt(dp, a, b, c, cx, cy, 8, 0, y, x);
      assert ShowsAt(dp, a, lines, y, x);
      if y / 8 == cy && x / 8 == cx {
        assert y == 8 * cy + y % 8 && x == 8 * cx + x % 8;
      }
    }
  }

  // ----- scrolling -----

  /** Pixels moved up by eight rows, background below. */
  ghost predicate Moved(dp: Display, a: seq<nat>, b: seq<nat>) {
    var shift := Stride(dp.pitch, 8);
    && |a| == |b| == Stride(dp.pitch, dp.height) && shift <= |a|
    && (forall i :: 0 <= i < |a| - shift ==> b[i] == a[i + shift])
    && (forall i :: |a| - shift <= i < |a| ==> b[i] == dp.bg)
  }

  lemma {:induction false} StrideAdd(width: nat, j: nat, k: nat)
    ensures Stride(width, j + k) == Stride(width, j) + Stride(width, k)
    decreases k
  {
    if k > 0 {
      StrideAdd(width, j, k - 1);
    }
  }

  /** Moving the pixels is dropping the first line of text, also if the height is no multiple of 8. */
  lemma MovedShows(dp: Display, a: seq<nat>, b: seq<nat>, lines: seq<Line>)
    requires ValidDisplay(dp) && Shows(dp, a, lines) && Moved(dp, a, b)
    requires |lines| == Rows(dp)
    ensures Shows(dp, b, lines[1..] + [BlankLine(Cols(dp))])
  {
    var lines' := lines[1..] + [BlankLine(Cols(dp))];
    forall y: nat, x: nat | y < dp.height && x < dp.pitch ensures ShowsAt(dp, b, lines', y, x) {
      AtInRange(dp, y, x);
      BlankInk(dp, y % 8, x % 8);
      StrideAdd(dp.pitch, y, 8);
      if y + 8 < dp.height {
        AtInRange(dp, y + 8, x);
        assert ShowsAt(dp, a, lines, y + 8, x);
        assert b[At(dp, y, x)] == a[At(dp, y + 8, x)];
        MovedColor(dp, lines, y, x);
      } else {
        MovedRest(dp, lines, y, x);
        BelowMoved(dp, y, x);
      }
    }
  }

  lemma MovedColor(dp: Display, lines: seq<Line>, y: nat, x: nat)
    requires ValidDisplay(dp) && |lines| == Rows(dp)
    ensures Color(dp, lines[1..] + [BlankLine(Cols(dp))], y, x) == Color(dp, lines, y + 8, x)
  {
    BlankInk(dp, y % 8, x % 8);
    assert (y + 8) / 8 == y / 8 + 1 && (y + 8) % 8 == y % 8;
  }

  lemma MovedRest(dp: Display, lines: seq<Line>, y: nat, x: nat)
    requires ValidDisplay(dp) && |lines| == Rows(dp) && y + 8 >= dp.height
    ensures Color(dp, lines[1..] + [BlankLine(Cols(dp))], y, x) == dp.bg
  {
    BlankInk(dp, y % 8, x % 8);
  }

  lemma BelowMoved(dp: Display, y: nat, x: nat)
    requires dp.height <= y + 8 && 8 <= dp.height
    ensures Stride(dp.pitch, dp.height) - Stride(dp.pitch, 8) <= At(dp, y, x)
  {
    StrideAdd(dp.pitch, dp.height - 8, 8);
    if dp.height - 8 < y {
      StrideMonotone(dp.pitch, dp.height - 8, y);
    }
  }
}
