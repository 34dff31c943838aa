/** The framebuffer console (src/kernel/console.c): a pixel array updated in place and a cursor. */
module TextConsole {
  import opened Bytes
  import opened Strides
  import opened Screens
  import opened Rendering

  class Console {
    var pixels: array<nat>
    var pitch: nat
    var width: nat
    var height: nat
    var cx: nat
    var cy: nat
    var fg: nat
    var bg: nat
    const font: Font

    /** The text on the screen. */
    ghost var lines: seq<Line>

    ghost function Display(): Rendering.Display
      reads this
    {
      Rendering.Display(width, height, pitch, font, fg, bg)
    }

    ghost function Text(): Screen
      reads this
    {
      Screen(lines, cx, cy)
    }

    ghost function ColCount(): nat
      reads this
    {
      Cols(Display())
    }

    ghost function RowCount(): nat
      reads this
    {
      Rows(Display())
    }

    /** The pixels show the text, wherever the cursor is. */
    ghost predicate Showing()
      reads this, pixels
    {
      && ValidDisplay(Display()) && Shows(Display(), pixels[..], lines)
      && |lines| == RowCount() && forall r :: 0 <= r < |lines| ==> |lines[r]| == ColCount()
    }

    /** The pixels show the text and the cursor is on the screen. */
    ghost predicate Valid()
      reads this, pixels
    {
      Showing() && cx < ColCount() && cy < RowCount()
    }

    /** console_init for a framebuffer of 32 bits per pixel. */
    constructor (pixels: array<nat>, width: nat, height: nat, pitch: nat, fg: nat, bg: nat, font: Font)
      requires ValidDisplay(Rendering.Display(width, height, pitch, font, fg, bg))
      requires pixels.Length == Stride(pitch, height)
      modifies pixels
      ensures Valid() && this.pixels == pixels && Display() == Rendering.Display(width, height, pitch, font, fg, bg)
      ensures Text() == BlankScreen(ColCount(), RowCount())
    {
      this.pixels, this.width, this.height, this.pitch := pixels, width, height, pitch;
      this.fg, this.bg, this.font := fg, bg, font;
      cx, cy, lines := 0, 0, [];
      new;
      Clear(bg);
    }

    /** Fills the framebuffer.  With the background colour this blanks the screen. */
    method Clear(color: nat)
      requires ValidDisplay(Display()) && pixels.Length == Stride(pitch, height)
      modifies this`cx, this`cy, this`lines, pixels
      ensures forall i :: 0 <= i < pixels.Length ==> pixels[i] == color
      ensures cx == 0 && cy == 0
      ensures color == bg ==> Valid() && Text() == BlankScreen(ColCount(), RowCount())
    {
      StrideIsProduct(pitch, height);
      var total := height * pitch;
      var i := 0;
      while i < total
        invariant i <= total == pixels.Length
        invariant forall k :: 0 <= k < i ==> pixels[k] == color
      {
        pixels[i] := color;
        i := i + 1;
      }
      cx := 0;
      cy := 0;
      lines := BlankScreen(ColCount(), RowCount()).lines;
      if color == bg {
        BlankShows(Display(), pixels[..]);
      }
    }

    /** The first loop of scroll_up, in place: the copy reads ahead of its writes. */
    method CopyUp(total: nat, shift: nat)
      requires total == pixels.Length && shift <= total
      modifies pixels
      ensures forall k :: 0 <= k < total - shift ==> pixels[k] == old(pixels[k + shift])
    {
      var i := 0;
      while i < total - shift
        invariant 0 <= i <= total - shift
        invariant forall k :: 0 <= k < i ==> pixels[k] == old(pixels[k + shift])
        invariant forall k :: i <= k < total ==> pixels[k] == old(pixels[k])
      {
        pixels[i] := pixels[i + shift];
        i := i + 1;
      }
    }

    /** The second loop: background from position `from` on. */
    method FillRest(total: nat, from: nat)
      requires total == pixels.Length && from <= total
      modifies pixels
      ensures forall k :: 0 <= k < from ==> pixels[k] == old(pixels[k])
      ensures forall k :: from <= k < total ==> pixels[k] == bg
    {
      var i := from;
      while i < total
        invariant from <= i <= total
        invariant forall k :: 0 <= k < from ==> pixels[k] == old(pixels[k])
        invariant forall k :: from <= k < i ==> pixels[k] == bg
      {
        pixels[i] := bg;
        i := i + 1;
      }
    }

    method MovePixels(ghost dp: Rendering.Display)
      requires dp == Display() && ValidDisplay(dp) && pixels.Length == Stride(pitch, height)
      modifies pixels
      ensures Moved(dp, old(pixels[..]), pixels[..])
    {
      StrideIsProduct(pitch, 8);
      StrideIsProduct(pitch, height);
      StrideAdd(pitch, 8, height - 8);
      var shift := 8 * pitch;
      var total := height * pitch;
      CopyUp(total, shift);
      FillRest(total, total - shift);
    }

    method ScrollUp()
      requires Showing() && cy > 0
      modifies this`cy, this`lines, pixels
      ensures Showing() && cy == old(cy) - 1
      ensures lines == old(lines)[1..] + [BlankLine(ColCount())]
    {
      ghost var dp, before := Display(), pixels[..];
      MovePixels(dp);
      MovedShows(dp, before, pixels[..], lines);
      cy := cy - 1;
      lines := lines[1..] + [BlankLine(ColCount())];
    }

    /** The nested loops of draw_glyph, on the pixels alone. */
    method DrawPixels(ghost dp: Rendering.Display, c: byte)
      requires dp == Display() && ValidDisplay(dp) && pixels.Length == Stride(pitch, height)
      requires c < 128 && 8 * cx + 8 <= width && 8 * cy + 8 <= height
      modifies pixels
      ensures PartlyDrawn(dp, old(pixels[..]), pixels[..], c, cx, cy, 8, 0)
    {
      ghost var before := pixels[..];
      DrawNothing(dp, before, c, cx, cy);
      var y := 0;
      while y < 8
        invariant 0 <= y <= 8
        invariant PartlyDrawn(dp, before, pixels[..], c, cx, cy, y, 0)
      {
        DrawRow(dp, before, c, y);
        y := y + 1;
      }
    }

    /** The inner loop of draw_glyph: row y of the glyph. */
    method DrawRow(ghost dp: Rendering.Display, ghost before: seq<nat>, c: byte, y: nat)
      requires dp == Display() && ValidDisplay(dp) && pixels.Length == Stride(pitch, height)
      requires c < 128 && 8 * cx + 8 <= width && 8 * cy + 8 <= height && y < 8
      requires PartlyDrawn(dp, before, pixels[..], c, cx, cy, y, 0)
      modifies pixels
      ensures PartlyDrawn(dp, before, pixels[..], c, cx, cy, y + 1, 0)
    {
      var px := cx * 8;
      var py := cy * 8;
      var row := font[c][y];
      StrideIsProduct(pitch, py + y);
      var x := 0;
      while x < 8
        invariant 0 <= x <= 8
        invariant PartlyDrawn(dp, before, pixels[..], c, cx, cy, y, x)
      {
        var color := if Bit(row, x) then fg else bg;
        DrawPixel(dp, before, pixels[..], c, cx, cy, y, x);
        ghost var now := pixels[..];
        pixels[(py + y) * pitch + (px + x)] := color;
        assert pixels[..] == now[At(dp, 8 * cy + y, 8 * cx + x) := Ink(dp, c, y, x)];
        x := x + 1;
      }
      DrawRowEnd(dp, before, pixels[..], c, cx, cy, y);
    }

    /** The pixels of every cell of the screen read back as the glyph of its character. */
    lemma ReadsBack(x: nat, y: nat)
      requires Valid() && fg != bg && y < RowCount() && x < ColCount() && lines[y][x] < 128
      ensures CellShows(pixels[..], pitch, fg, bg, x, y, font[lines[y][x]])
    {
      CellReadsBack(Display(), pixels[..], lines, x, y);
    }

    method DrawGlyph(c: byte)
      requires Valid() && c < 128
      modifies this`lines, pixels
      ensures Valid() && Text() == Drawn(old(Text()), c)
      ensures fg != bg ==> CellShows(pixels[..], pitch, fg, bg, cx, cy, font[c])
    {
      ghost var dp, before := Display(), pixels[..];
      DrawPixels(dp, c);
      DrawnShows(dp, before, pixels[..], lines, c, cx, cy);
      lines := lines[cy := WithChar(lines[cy], cx, c)];
      if fg != bg {
        ReadsBack(cx, cy);
      }
    }

    /** One character: its own effect, then wrapping, then scrolling. */
    method Putc(c: byte)
      requires Valid()
      modifies this`cx, this`cy, this`lines, pixels
      ensures Valid() && Text() == Put(old(Text()), ColCount(), RowCount(), c)
      ensures ColCount() == width / 8 && RowCount() == height / 8
      ensures 0x20 <= c <= 0x7E && fg != bg && (old(cx) + 1 < width / 8 || old(cy) + 1 < height / 8) ==>
        CellShows(pixels[..], pitch, fg, bg, old(cx), old(cy), font[c])
    {
      ghost var start := Text();
      Type(c);
      WrapAndScroll();
      if 0x20 <= c <= 0x7E && fg != bg && (start.cx + 1 < ColCount() || start.cy + 1 < RowCount()) {
        PutPrints(start, ColCount(), RowCount(), c);
        ReadsBack(start.cx, start.cy);
      }
    }

    /** Second half of console_putc. */
    method WrapAndScroll()
      requires Showing() && cy <= RowCount() && (cy == RowCount() ==> cx == 0)
      modifies this`cx, this`cy, this`lines, pixels
      ensures Valid() && Text() == Scrolled(Wrapped(old(Text()), ColCount()), ColCount(), RowCount())
    {
      var cols := width / 8;
      var rows := height / 8;
      if cx >= cols {
        cx := 0;
        cy := cy + 1;
      }
      if cy >= rows {
        ScrollUp();
      }
    }

    /** The effect of one character, before wrapping and scrolling. */
    method Type(c: byte)
      requires Valid()
      modifies this`cx, this`cy, this`lines, pixels
      ensures Showing() && Text() == Typed(old(Text()), c)
    {
      if c == 0x0A {
        cx := 0;
        cy := cy + 1;
      } else if c == 0x0D {
        cx := 0;
      } else if c == 0x09 {
        cx := (cx + 8) / 8 * 8;
      } else if c == 0x08 {
        if cx > 0 {
          cx := cx - 1;
          DrawGlyph(0x20);
        }
      } else if 0x20 <= c < 0x7F {
        DrawGlyph(c);
        cx := cx + 1;
      }
    }

    /** A stream of characters: the pixels then show what the stream does to the screen of text. */
    method Puts(s: seq<byte>)
      requires Valid()
      modifies this`cx, this`cy, this`lines, pixels
      ensures Valid() && Text() == PutAll(old(Text()), ColCount(), RowCount(), s)
      ensures fg != bg ==> forall y: nat, x: nat :: y < |lines| && x < |lines[y]| && lines[y][x] < 128 ==>
        CellShows(pixels[..], pitch, fg, bg, x, y, font[lines[y][x]])
    {
      ghost var start, cols, rows := Text(), ColCount(), RowCount();
      var i := 0;
      while i < |s|
        invariant i <= |s| && Valid() && ColCount() == cols && RowCount() == rows
        invariant Text() == PutAll(start, cols, rows, s[..i])
      {
        Putc(s[i]);
        assert s[..i + 1] == s[..i] + [s[i]];
        PutAllConcat(start, cols, rows, s[..i], [s[i]]);
        i := i + 1;
      }
      assert s[..i] == s;
      forall y: nat, x: nat | fg != bg && y < |lines| && x < |lines[y]| && lines[y][x] < 128
        ensures CellShows(pixels[..], pitch, fg, bg, x, y, font[lines[y][x]])
      {
        ReadsBack(x, y);
      }
    }
  }
}
