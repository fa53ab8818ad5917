/** What the text console shows: glyph cells painted over a linear framebuffer. */
module Picture {
  import opened Bits

  const FONT_WIDTH: nat := 9
  const FONT_HEIGHT: nat := 16

  type Color = u32

  /** Truncation to 32 bits. */
  function Wrap(n: nat): u32
  {
    n % 0x1_0000_0000
  }

  /** How far `b` lies after `a` on the circle of 32-bit numbers. */
  function Delta(a: u32, b: u32): u32
  {
    if a <= b then b - a else 0x1_0000_0000 + b - a
  }

  /** A framebuffer row is `stride` words long, of which the first `width` are visible. */
  datatype Geometry = Geometry(width: nat, height: nat, stride: nat)

  ghost predicate GoodGeometry(g: Geometry)
  {
    0 < g.stride && g.width <= g.stride && g.height * g.stride < 0x1_0000_0000
  }

  /** One character at a place, with its colour. */
  datatype Cell = Cell(x: u32, y: u32, c: char, fg: Color)

  /** The cell covers pixel (x, y); coordinates are 32-bit numbers, so a cell may run over the end of
      the range and go on at 0. */
  predicate InCell(cell: Cell, x: nat, y: nat)
  {
    && x < 0x1_0000_0000 && y < 0x1_0000_0000
    && Delta(cell.x, x) < FONT_WIDTH && Delta(cell.y, y) < FONT_HEIGHT
  }

  predicate Printable(c: char)
  {
    ' ' <= c <= '~'
  }

  /** The font: nine 16-bit columns for each of the 95 printable characters. */
  predicate GoodFont(font: seq<nat>)
  {
    |font| == 95 * FONT_WIDTH
  }

  /** The colour of a pixel inside a cell; the background is black. */
  function Ink(font: seq<nat>, cell: Cell, x: nat, y: nat): Color
    requires GoodFont(font) && Printable(cell.c) && InCell(cell, x, y)
  {
    var column := font[(cell.c as nat - 32) * FONT_WIDTH + Delta(cell.x, x)];
    if Bit(column, Delta(cell.y, y)) then cell.fg else 0
  }

  predicate Visible(g: Geometry, k: nat)
    requires g.stride > 0
  {
    k % g.stride < g.width && k / g.stride < g.height
  }

  /** Pixels of the first `cols` columns of the cell, and of the first `rows` rows of the next. */
  predicate Drawn(cell: Cell, cols: nat, rows: nat, x: nat, y: nat)
  {
    InCell(cell, x, y) &&
    (Delta(cell.x, x) < cols || (Delta(cell.x, x) == cols && Delta(cell.y, y) < rows))
  }

  /** The framebuffer with part of one cell painted. */
  function PaintPart(fb: seq<Color>, g: Geometry, font: seq<nat>, cell: Cell, cols: nat, rows: nat): (r: seq<Color>)
    requires g.stride > 0 && GoodFont(font) && Printable(cell.c)
    ensures |r| == |fb|
  {
    seq(|fb|, k requires 0 <= k < |fb| =>
      var (x, y) := (k % g.stride, k / g.stride);
      if Visible(g, k) && Drawn(cell, cols, rows, x, y) then Ink(font, cell, x, y) else fb[k])
  }

  /** The framebuffer with one whole cell painted. */
  function Paint(fb: seq<Color>, g: Geometry, font: seq<nat>, cell: Cell): (r: seq<Color>)
    requires g.stride > 0 && GoodFont(font) && Printable(cell.c)
    ensures |r| == |fb|
  {
    PaintPart(fb, g, font, cell, FONT_WIDTH, 0)
  }

  // ----- text -----

  /** A character and the colour it is written in. */
  datatype Glyph = Glyph(c: char, fg: Color)

  datatype Cursor = Cursor(x: u32, y: u32)

  predicate GoodText(text: seq<Glyph>)
  {
    forall k :: 0 <= k < |text| ==> text[k].c == '\n' || Printable(text[k].c)
  }

  function Colored(s: string, fg: Color): (t: seq<Glyph>)
    ensures |t| == |s|
    ensures forall k :: 0 <= k < |s| ==> t[k] == Glyph(s[k], fg)
  {
    seq(|s|, k requires 0 <= k < |s| => Glyph(s[k], fg))
  }

  /** A C string ends at its first NUL character. */
  function CString(s: string): string
  {
    if s == [] || s[0] == '\0' then [] else [s[0]] + CString(s[1..])
  }

  lemma {:induction false} CStringIs(s: string, n: nat)
    requires n <= |s| && (n == |s| || s[n] == '\0') && forall k :: 0 <= k < n ==> s[k] != '\0'
    ensures CString(s) == s[..n]
  {
    if n == 0 {
    } else {
      CStringIs(s[1..], n - 1);
    }
  }

  /** A newline goes to the start of the next line; any other character one cell to the right. */
  function Advance(cur: Cursor, c: char): Cursor
  {
    if c == '\n' then Cursor(0, Wrap(cur.y + FONT_HEIGHT)) else Cursor(Wrap(cur.x + FONT_WIDTH), cur.y)
  }

  function CursorAfter(cur: Cursor, text: seq<Glyph>): Cursor
  {
    if text == [] then cur
    else Advance(CursorAfter(cur, text[..|text| - 1]), text[|text| - 1].c)
  }

  /** What the framebuffer is after the text was written from `cur`. */
  function Write(fb: seq<Color>, g: Geometry, font: seq<nat>, cur: Cursor, text: seq<Glyph>): (r: seq<Color>)
    requires g.stride > 0 && GoodFont(font) && GoodText(text)
    ensures |r| == |fb|
  {
    if text == [] then fb
    else
      var init := text[..|text| - 1];
      var last := text[|text| - 1];
      var before := Write(fb, g, font, cur, init);
      if last.c == '\n' then before
      else
        var at := CursorAfter(cur, init);
        Paint(before, g, font, Cell(at.x, at.y, last.c, last.fg))
  }

  /** The cell of the `k`-th character. */
  function CellOf(cur: Cursor, text: seq<Glyph>, k: nat): Cell
    requires k < |text|
  {
    var at := CursorAfter(cur, text[..k]);
    Cell(at.x, at.y, text[k].c, text[k].fg)
  }

  // ----- the declarative picture -----

  lemma {:induction false} CursorConcat(cur: Cursor, a: seq<Glyph>, b: seq<Glyph>)
    ensures CursorAfter(cur, a + b) == CursorAfter(CursorAfter(cur, a), b)
    decreases |b|
  {
    if b == [] {
      assert a + b == a;
    } else {
      assert (a + b)[..|a + b| - 1] == a + b[..|b| - 1];
      CursorConcat(cur, a, b[..|b| - 1]);
    }
  }

  /** How many newlines the text has. */
  function Newlines(text: seq<Glyph>): (n: nat)
    ensures n <= |text|
    ensures text != [] && text[0].c != '\n' ==> n < |text|
  {
    if text == [] then 0
    else Newlines(text[..|text| - 1]) + (if text[|text| - 1].c == '\n' then 1 else 0)
  }

  lemma WrapAdd(a: nat, b: nat)
    ensures Wrap(Wrap(a) + b) == Wrap(a + b)
  {}

  /** Where a text leaves the cursor: one cell to the right for each character, or as many lines down
      as it has newlines. */
  lemma {:induction false} CursorMoves(cur: Cursor, text: seq<Glyph>)
    ensures CursorAfter(cur, text).y == Wrap(cur.y + FONT_HEIGHT * Newlines(text))
    ensures Newlines(text) == 0 ==> CursorAfter(cur, text).x == Wrap(cur.x + FONT_WIDTH * |text|)
  {
    if text == [] {
    } else {
      var init := text[..|text| - 1];
      CursorMoves(cur, init);
      WrapAdd(cur.y + FONT_HEIGHT * Newlines(init), FONT_HEIGHT);
      WrapAdd(cur.x + FONT_WIDTH * |init|, FONT_WIDTH);
      hide Wrap;
    }
  }

  /** A stretch of `w` points moved on by at least `w`, and not all the way round, misses itself. */
  lemma StretchesApart(a: u32, b: u32, p: u32, w: nat, t: nat)
    requires w <= t <= 0x1_0000_0000 - w && b == Wrap(a + t) && Delta(a, p) < w
    ensures Delta(b, p) >= w
  {}

  /** At most 2^28 cells in a row, or fewer lines, do not come round to the start. */
  lemma CellsApartAfter(cur: Cursor, text: seq<Glyph>, c: Cell, d: Cell, x: nat, y: nat)
    requires 0 < |text| <= 0x1000_0000 && text[0].c != '\n'
    requires c.x == cur.x && c.y == cur.y && InCell(c, x, y)
    requires d.x == CursorAfter(cur, text).x && d.y == CursorAfter(cur, text).y
    ensures !InCell(d, x, y)
  {
    CursorMoves(cur, text);
    var lines := Newlines(text);
    hide Wrap, Delta, CursorAfter, Newlines;
    if lines == 0 {
      StretchesApart(c.x, d.x, x, FONT_WIDTH, FONT_WIDTH * |text|);
    } else {
      StretchesApart(c.y, d.y, y, FONT_HEIGHT, FONT_HEIGHT * lines);
    }
  }

  /** Characters at most 2^28 places apart never share a pixel, wherever the cursor starts. */
  lemma CellsAreApart(cur: Cursor, text: seq<Glyph>, i: nat, j: nat, x: nat, y: nat)
    requires i < j < |text| && j - i <= 0x1000_0000 && text[i].c != '\n' && InCell(CellOf(cur, text, i), x, y)
    ensures !InCell(CellOf(cur, text, j), x, y)
  {
    CursorConcat(cur, text[..i], text[i..j]);
    assert text[..i] + text[i..j] == text[..j];
    CellsApartAfter(CursorAfter(cur, text[..i]), text[i..j], CellOf(cur, text, i), CellOf(cur, text, j), x, y);
  }

  lemma {:induction false} NewlinesAfterOne(text: seq<Glyph>)
    requires text != [] && text[0].c != '\n' && forall k :: 0 < k < |text| ==> text[k].c == '\n'
    ensures Newlines(text) == |text| - 1
  {
    if |text| == 1 {
    } else {
      NewlinesAfterOne(text[..|text| - 1]);
    }
  }

  /** One place further they may: after a character in the first column and 2^28 newlines the cursor is
      back where it was. */
  lemma CursorComesRound(cur: Cursor, text: seq<Glyph>)
    requires |text| == 0x1000_0001 && text[0].c != '\n' && forall k :: 0 < k < |text| ==> text[k].c == '\n'
    requires cur.x == 0
    ensures CursorAfter(cur, text) == cur
  {
    NewlinesAfterOne(text);
    CursorMoves(cur, text);
  }

  /** Whether the `k`-th character has a cell that covers pixel (x, y). */
  predicate Covers(cur: Cursor, text: seq<Glyph>, k: nat, x: nat, y: nat)
    requires k < |text|
  {
    text[k].c != '\n' && InCell(CellOf(cur, text, k), x, y)
  }

  /** One more character: a pixel of its cell takes its ink, every other pixel stays. */
  lemma WriteOne(fb: seq<Color>, g: Geometry, font: seq<nat>, cur: Cursor, text: seq<Glyph>, p: nat)
    requires g.stride > 0 && GoodFont(font) && GoodText(text) && p < |fb| && text != []
    ensures var n := |text| - 1;
      var (x, y) := (p % g.stride, p / g.stride);
      Write(fb, g, font, cur, text)[p] ==
        if Visible(g, p) && Covers(cur, text, n, x, y) then Ink(font, CellOf(cur, text, n), x, y)
        else Write(fb, g, font, cur, text[..n])[p]
  {}

  lemma CoversPrefix(cur: Cursor, text: seq<Glyph>, n: nat, k: nat, x: nat, y: nat)
    requires k < n <= |text|
    ensures CellOf(cur, text[..n], k) == CellOf(cur, text, k)
    ensures Covers(cur, text[..n], k, x, y) <==> Covers(cur, text, k, x, y)
  {
    assert text[..n][..k] == text[..k];
  }

  /** A visible pixel shows the ink of the last character whose cell covers it. */
  lemma {:induction false} PixelOfCharacter(
      fb: seq<Color>, g: Geometry, font: seq<nat>, cur: Cursor, text: seq<Glyph>, p: nat, k: nat, x: nat, y: nat)
    requires g.stride > 0 && GoodFont(font) && GoodText(text) && p < |fb| && Visible(g, p)
    requires x == p % g.stride && y == p / g.stride
    requires k < |text| && Covers(cur, text, k, x, y)
    requires forall j :: k < j < |text| ==> !Covers(cur, text, j, x, y)
    ensures Write(fb, g, font, cur, text)[p] == Ink(font, CellOf(cur, text, k), x, y)
    decreases |text|
  {
    hide Write, CursorAfter, Covers, InCell, Ink, CellOf, Visible;
    var n := |text| - 1;
    WriteOne(fb, g, font, cur, text, p);
    if k == n {
    } else {
      forall j | 0 <= j < n
        ensures CellOf(cur, text[..n], j) == CellOf(cur, text, j)
        ensures Covers(cur, text[..n], j, x, y) <==> Covers(cur, text, j, x, y)
      {
        CoversPrefix(cur, text, n, j, x, y);
      }
      PixelOfCharacter(fb, g, font, cur, text[..n], p, k, x, y);
    }
  }

  lemma OnlyCover(cur: Cursor, text: seq<Glyph>, k: nat, x: nat, y: nat)
    requires k < |text| <= 0x1000_0001 && Covers(cur, text, k, x, y)
    ensures forall j :: k < j < |text| ==> !Covers(cur, text, j, x, y)
  {
    hide InCell, CellOf;
    forall j | k < j < |text| ensures !Covers(cur, text, j, x, y) {
      CellsAreApart(cur, text, k, j, x, y);
    }
  }

  /** In a text of at most 2^28 + 1 characters there is only one such character. */
  lemma PixelOfShortText(
      fb: seq<Color>, g: Geometry, font: seq<nat>, cur: Cursor, text: seq<Glyph>, p: nat, k: nat, x: nat, y: nat)
    requires g.stride > 0 && GoodFont(font) && GoodText(text) && p < |fb| && Visible(g, p)
    requires x == p % g.stride && y == p / g.stride
    requires k < |text| <= 0x1000_0001 && Covers(cur, text, k, x, y)
    ensures Write(fb, g, font, cur, text)[p] == Ink(font, CellOf(cur, text, k), x, y)
  {
    OnlyCover(cur, text, k, x, y);
    hide *;
    PixelOfCharacter(fb, g, font, cur, text, p, k, x, y);
  }

  /** Every other word of the framebuffer is unchanged. */
  lemma {:induction false} PixelElsewhere(
      fb: seq<Color>, g: Geometry, font: seq<nat>, cur: Cursor, text: seq<Glyph>, p: nat)
    requires g.stride > 0 && GoodFont(font) && GoodText(text) && p < |fb|
    requires !Visible(g, p) || forall k :: 0 <= k < |text| ==> !Covers(cur, text, k, p % g.stride, p / g.stride)
    ensures Write(fb, g, font, cur, text)[p] == fb[p]
    decreases |text|
  {
    if text == [] {
    } else {
      var n := |text| - 1;
      WriteOne(fb, g, font, cur, text, p);
      hide CursorAfter, Covers;
      var (x, y) := (p % g.stride, p / g.stride);
      forall k | 0 <= k < n ensures Covers(cur, text[..n], k, x, y) <==> Covers(cur, text, k, x, y) {
        CoversPrefix(cur, text, n, k, x, y);
      }
      PixelElsewhere(fb, g, font, cur, text[..n], p);
    }
  }

  /** Writing `a` and then `b` is writing `a + b`. */
  lemma {:induction false} WriteConcat(
      fb: seq<Color>, g: Geometry, font: seq<nat>, cur: Cursor, a: seq<Glyph>, b: seq<Glyph>)
    requires g.stride > 0 && GoodFont(font) && GoodText(a) && GoodText(b)
    ensures Write(fb, g, font, cur, a + b) ==
            Write(Write(fb, g, font, cur, a), g, font, CursorAfter(cur, a), b)
    decreases |b|
  {
    if b == [] {
      assert a + b == a;
    } else {
      var init := b[..|b| - 1];
      assert (a + b)[..|a + b| - 1] == a + init;
      WriteConcat(fb, g, font, cur, a, init);
      CursorConcat(cur, a, init);
    }
  }
}
