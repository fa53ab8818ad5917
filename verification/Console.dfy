/** The text console: sys/kernel/dev/video/fb.c and sys/kernel/pty/core.c. */
module Console {
  import opened Bits
  import opened Picture

  /** The column and row of word `x + y * stride`. */
  lemma IndexIs(x: nat, y: nat, stride: nat)
    requires x < stride
    ensures (x + y * stride) % stride == x && (x + y * stride) / stride == y
  {
    var k := x + y * stride;
    var (q, r) := (k / stride, k % stride);
    assert q * stride + r == y * stride + x;
    Apart(q, y, stride, x - r);
  }

  lemma Apart(q: int, y: int, stride: nat, d: int)
    requires stride > 0 && 0 - stride < d < stride && (q - y) * stride == d
    ensures q == y
  {
    Times(1, q - y, stride);
    Times(q - y, -1, stride);
  }

  lemma IndexBound(x: nat, y: nat, stride: nat, height: nat)
    requires x < stride && y < height
    ensures x + y * stride < height * stride
  {
    Times(y, height - 1, stride);
    assert (height - 1) * stride == height * stride - stride;
  }

  /** No two visible pixels share a word. */
  lemma IndexIsInjective(g: Geometry, x: nat, y: nat, x': nat, y': nat)
    requires g.width <= g.stride && x < g.width && x' < g.width
    ensures x + y * g.stride == x' + y' * g.stride <==> x == x' && y == y'
  {
    IndexIs(x, y, g.stride);
    IndexIs(x', y', g.stride);
  }

  lemma WordIs(k: nat, stride: nat)
    requires stride > 0
    ensures k == k % stride + k / stride * stride
  {}

  /** The glyph bit the source computes by shifting the column. */
  lemma ShiftedBit(column: nat, row: nat)
    ensures And(Shr(column, row), 1) == if Bit(column, row) then 1 else 0
  {
    AndBit(Shr(column, row), 1, 0);
    ShrBit(column, row, 0);
  }

  class Screen {
    const fb: array<Color>
    const g: Geometry
    const font: seq<nat>
    var cursorX: u32
    var cursorY: u32

    constructor (fb: array<Color>, g: Geometry, font: seq<nat>)
      requires GoodGeometry(g) && GoodFont(font) && fb.Length == g.height * g.stride
      ensures this.fb == fb && this.g == g && this.font == font
      ensures Valid() && At() == Cursor(0, 0)
    {
      this.fb, this.g, this.font := fb, g, font;
      cursorX, cursorY := 0, 0;
    }

    ghost predicate Valid()
    {
      GoodGeometry(g) && GoodFont(font) && fb.Length == g.height * g.stride
    }

    ghost function At(): Cursor
      reads this
    {
      Cursor(cursorX, cursorY)
    }

    /** `fb_putpix`: 0 for a pixel on the screen, 1 for one outside it, which is not drawn. */
    method PutPix(x: u32, y: u32, color: Color) returns (r: nat)
      requires Valid()
      modifies fb
      ensures r == if x < g.width && y < g.height then 0 else 1
      ensures r == 0 ==> x + y * g.stride < fb.Length && fb[..] == old(fb[..])[x + y * g.stride := color]
      ensures r == 1 ==> fb[..] == old(fb[..])
    {
      if x >= g.width || y >= g.height {
        return 1;
      }
      var index := GetIndex(x, y);
      fb[index] := color;
      return 0;
    }

    /** `get_index`, which answers a 32-bit number. */
    method GetIndex(x: nat, y: nat) returns (index: nat)
      requires Valid() && x < g.width && y < g.height
      ensures index == x + y * g.stride < fb.Length
    {
      IndexBound(x, y, g.stride, g.height);
      index := Wrap(x + y * g.stride);
    }

    /** `pty_putch`. */
    method PutCh(x: u32, y: u32, c: char, fg: Color)
      requires Valid() && Printable(c)
      modifies fb
      ensures fb[..] == Paint(old(fb[..]), g, font, Cell(x, y, c, fg))
    {
      ghost var was := fb[..];
      ghost var cell := Cell(x, y, c, fg);
      NothingDrawn(was, g, font, cell);
      hide PaintPart, InCell, Wrap, Delta, Bit, And, Shr;
      for cx := 0 to FONT_WIDTH
        invariant fb[..] == PaintPart(was, g, font, cell, cx, 0)
      {
        for cy := 0 to FONT_HEIGHT
          invariant fb[..] == PaintPart(was, g, font, cell, cx, cy)
        {
          var column := font[(c as nat - 32) * FONT_WIDTH + cx];
          var col := And(Shr(column, cy), 1);
          ShiftedBit(column, cy);
          var r := PutPix(Wrap(x + cx), Wrap(y + cy), if col != 0 then fg else 0);
          OnePixel(was, g, font, cell, cx, cy);
        }
        ColumnDone(was, g, font, cell, cx);
      }
    }

    method NewLine()
      modifies this
      ensures At() == Advance(old(At()), '\n')
    {
      cursorY := Wrap(cursorY + FONT_HEIGHT);
      cursorX := 0;
    }

    /** The body of the loop of `pty_putstr`. */
    method PutGlyph(c: char, color: Color)
      requires Valid() && (c == '\n' || Printable(c))
      modifies this, fb
      ensures At() == Advance(old(At()), c)
      ensures fb[..] == if c == '\n' then old(fb[..])
                        else Paint(old(fb[..]), g, font, Cell(old(cursorX), old(cursorY), c, color))
    {
      if c == '\n' {
        NewLine();
        return;
      }
      PutCh(cursorX, cursorY, c, color);
      cursorX := Wrap(cursorX + FONT_WIDTH);
    }

    /** `pty_putstr`: print up to the terminating NUL. */
    method PutStr(str: string, color: Color)
      requires Valid() && GoodText(Colored(CString(str), color))
      modifies this, fb
      ensures fb[..] == Write(old(fb[..]), g, font, old(At()), Colored(CString(str), color))
      ensures At() == CursorAfter(old(At()), Colored(CString(str), color))
    {
      hide Write, CursorAfter, CString, Paint;
      ghost var n := CStringEnd(str);
      ghost var text := Colored(CString(str), color);
      var i := 0;
      WriteNothing(fb[..], g, font, At(), text);
      while i < |str| && str[i] != '\0'
        invariant 0 <= i <= n
        invariant fb[..] == Write(old(fb[..]), g, font, old(At()), text[..i])
        invariant At() == CursorAfter(old(At()), text[..i])
        decreases |str| - i
      {
        WriteNext(old(fb[..]), g, font, old(At()), text, i);
        PutGlyph(str[i], color);
        i := i + 1;
      }
      assert text[..n] == text;
    }
  }

  /** Where the scan for the terminating NUL stops. */
  lemma CStringEnd(str: string) returns (n: nat)
    ensures n <= |str| && CString(str) == str[..n]
    ensures n == |str| || str[n] == '\0'
    ensures forall k :: 0 <= k < n ==> str[k] != '\0'
  {
    if str == [] || str[0] == '\0' {
      n := 0;
    } else {
      var m := CStringEnd(str[1..]);
      n := m + 1;
      assert [str[0]] + str[1..][..m] == str[..n];
    }
  }

  lemma WriteNothing(fb: seq<Color>, g: Geometry, font: seq<nat>, cur: Cursor, text: seq<Glyph>)
    requires g.stride > 0 && GoodFont(font) && GoodText(text)
    ensures Write(fb, g, font, cur, text[..0]) == fb && CursorAfter(cur, text[..0]) == cur
  {}

  lemma WriteNext(fb: seq<Color>, g: Geometry, font: seq<nat>, cur: Cursor, text: seq<Glyph>, i: nat)
    requires g.stride > 0 && GoodFont(font) && GoodText(text) && i < |text|
    ensures var at := CursorAfter(cur, text[..i]);
      && CursorAfter(cur, text[..i + 1]) == Advance(at, text[i].c)
      && Write(fb, g, font, cur, text[..i + 1]) ==
         (var before := Write(fb, g, font, cur, text[..i]);
          if text[i].c == '\n' then before
          else Paint(before, g, font, Cell(at.x, at.y, text[i].c, text[i].fg)))
  {
    assert text[..i + 1][..i] == text[..i] && text[..i + 1][i] == text[i];
  }

  lemma NothingDrawn(was: seq<Color>, g: Geometry, font: seq<nat>, cell: Cell)
    requires g.stride > 0 && GoodFont(font) && Printable(cell.c)
    ensures PaintPart(was, g, font, cell, 0, 0) == was
  {}

  lemma ColumnDone(was: seq<Color>, g: Geometry, font: seq<nat>, cell: Cell, cx: nat)
    requires g.stride > 0 && GoodFont(font) && Printable(cell.c)
    ensures PaintPart(was, g, font, cell, cx, FONT_HEIGHT) == PaintPart(was, g, font, cell, cx + 1, 0)
  {}

  /** Only one pixel of the range is `d` points after `a`. */
  lemma DeltaIs(a: u32, d: nat, b: u32)
    requires d < 0x1_0000_0000
    ensures Delta(a, b) == d <==> b == Wrap(a + d)
  {}

  /** The next pixel of a cell to be drawn. */
  lemma DrawnGrows(cell: Cell, cx: nat, cy: nat, x: u32, y: u32)
    requires cx < FONT_WIDTH && cy < FONT_HEIGHT
    ensures Drawn(cell, cx, cy + 1, x, y) <==>
            Drawn(cell, cx, cy, x, y) || (x == Wrap(cell.x + cx) && y == Wrap(cell.y + cy))
    ensures InCell(cell, Wrap(cell.x + cx), Wrap(cell.y + cy))
    ensures Delta(cell.x, Wrap(cell.x + cx)) == cx && Delta(cell.y, Wrap(cell.y + cy)) == cy
  {
    DeltaIs(cell.x, cx, x);
    DeltaIs(cell.y, cy, y);
    DeltaIs(cell.x, cx, Wrap(cell.x + cx));
    DeltaIs(cell.y, cy, Wrap(cell.y + cy));
    hide Wrap, Delta;
  }

  /** Drawing one pixel of a cell extends the painted part by that pixel. */
  lemma OnePixel(was: seq<Color>, g: Geometry, font: seq<nat>, cell: Cell, cx: nat, cy: nat)
    requires GoodGeometry(g) && GoodFont(font) && Printable(cell.c) && |was| == g.height * g.stride
    requires cx < FONT_WIDTH && cy < FONT_HEIGHT
    ensures var (x, y) := (Wrap(cell.x + cx), Wrap(cell.y + cy));
      var before := PaintPart(was, g, font, cell, cx, cy);
      var after := PaintPart(was, g, font, cell, cx, cy + 1);
      && InCell(cell, x, y) && Delta(cell.x, x) == cx && Delta(cell.y, y) == cy
      && if x < g.width && y < g.height then
           x + y * g.stride < |was| && after == before[x + y * g.stride := Ink(font, cell, x, y)]
         else after == before
  {
    var (x, y) := (Wrap(cell.x + cx), Wrap(cell.y + cy));
    var (before, after) := (PaintPart(was, g, font, cell, cx, cy), PaintPart(was, g, font, cell, cx, cy + 1));
    DrawnGrows(cell, cx, cy, x, y);
    hide Ink, Wrap, Delta, InCell, PaintPart;
    if x < g.width && y < g.height { IndexBound(x, y, g.stride, g.height); }
    forall k: nat | k < |was|
      ensures after[k] == if x < g.width && y < g.height && k == x + y * g.stride
                          then Ink(font, cell, x, y) else before[k]
    {
      PixelGrows(was, g, font, cell, cx, cy, x, y, k);
    }
  }

  lemma PixelGrows(was: seq<Color>, g: Geometry, font: seq<nat>, cell: Cell, cx: nat, cy: nat, x: u32, y: u32, k: nat)
    requires GoodGeometry(g) && GoodFont(font) && Printable(cell.c) && k < |was|
    requires cx < FONT_WIDTH && cy < FONT_HEIGHT && x == Wrap(cell.x + cx) && y == Wrap(cell.y + cy)
    ensures InCell(cell, x, y)
    ensures PaintPart(was, g, font, cell, cx, cy + 1)[k] ==
            if x < g.width && y < g.height && k == x + y * g.stride then Ink(font, cell, x, y)
            else PaintPart(was, g, font, cell, cx, cy)[k]
  {
    var (a, b) := (k % g.stride, k / g.stride);
    DrawnGrows(cell, cx, cy, x, y);
    PartAt(was, g, font, cell, cx, cy, k, a, b);
    PartAt(was, g, font, cell, cx, cy + 1, k, a, b);
    if x < g.width { SamePlace(k, x, y, g.stride); }
    if Visible(g, k) {
      PixelRange(g, k);
      hide *;
      DrawnGrows(cell, cx, cy, a, b);
    }
  }

  lemma PartAt(was: seq<Color>, g: Geometry, font: seq<nat>, cell: Cell, cx: nat, cy: nat, k: nat, x: nat, y: nat)
    requires g.stride > 0 && GoodFont(font) && Printable(cell.c) && k < |was| && x == k % g.stride && y == k / g.stride
    ensures Visible(g, k) <==> x < g.width && y < g.height
    ensures Visible(g, k) && Drawn(cell, cx, cy, x, y) ==>
              InCell(cell, x, y) && PaintPart(was, g, font, cell, cx, cy)[k] == Ink(font, cell, x, y)
    ensures !(Visible(g, k) && Drawn(cell, cx, cy, x, y)) ==> PaintPart(was, g, font, cell, cx, cy)[k] == was[k]
  {
    hide Ink;
  }

  lemma PixelRange(g: Geometry, k: nat)
    requires GoodGeometry(g) && Visible(g, k)
    ensures k % g.stride < 0x1_0000_0000 && k / g.stride < 0x1_0000_0000
  {
    Times(1, g.stride, g.height);
  }

  lemma SamePlace(k: nat, x: nat, y: nat, stride: nat)
    requires x < stride
    ensures k % stride == x && k / stride == y <==> k == x + y * stride
  {
    IndexIs(x, y, stride);
    WordIs(k, stride);
  }
}
