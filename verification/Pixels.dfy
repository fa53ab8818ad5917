/** The text console in plain numbers: which word of the framebuffer shows which bit of the font, and
    where a text leaves the cursor. */
module Pixels {
  import opened Bits
  import opened Picture
  import Console

  /** Coordinates `d` points on from `a` on the circle of 32-bit numbers. */
  function On(a: u32, d: nat): u32
  {
    (a + d) % 0x1_0000_0000
  }

  /** The cell of a glyph at `at` covers exactly the 9 by 16 pixels from there on, and shows bit `dy` of
      font column `dx` in each. */
  lemma CellShows(font: seq<nat>, at: Cursor, glyph: Glyph, dx: nat, dy: nat)
    requires GoodFont(font) && ' ' <= glyph.c <= '~' && dx < 9 && dy < 16
    ensures var cell := Cell(at.x, at.y, glyph.c, glyph.fg);
      && InCell(cell, On(at.x, dx), On(at.y, dy))
      && Ink(font, cell, On(at.x, dx), On(at.y, dy)) ==
         (if Bit(font[(glyph.c as nat - 32) * 9 + dx], dy) then glyph.fg else 0)
  {
    Console.DeltaIs(at.x, dx, On(at.x, dx));
    Console.DeltaIs(at.y, dy, On(at.y, dy));
    hide Bit, Delta;
  }

  lemma WordOfCell(fb: seq<Color>, g: Geometry, font: seq<nat>, cur: Cursor, text: seq<Glyph>, k: nat,
      x: nat, y: nat, p: nat)
    requires GoodGeometry(g) && GoodFont(font) && GoodText(text) && |fb| == g.height * g.stride
    requires k < |text| <= 0x1000_0001 && Covers(cur, text, k, x, y)
    requires x < g.width && y < g.height && p == x + y * g.stride
    ensures p < |fb| && Write(fb, g, font, cur, text)[p] == Ink(font, CellOf(cur, text, k), x, y)
  {
    Console.IndexIs(x, y, g.stride);
    Console.IndexBound(x, y, g.stride, g.height);
    assert Visible(g, p);
    hide *;
    PixelOfShortText(fb, g, font, cur, text, p, k, x, y);
  }

  /** A printable character of a text shows its glyph: for each of the 9 by 16 pixels of its cell that is
      on the screen, the word is the text colour where the font has a bit and 0 where it has none. */
  lemma CharacterShows(fb: seq<Color>, g: Geometry, font: seq<nat>, cur: Cursor, text: seq<Glyph>, k: nat,
      at: Cursor, dx: nat, dy: nat, x: nat, y: nat, p: nat)
    requires GoodGeometry(g) && GoodFont(font) && GoodText(text) && |fb| == g.height * g.stride
    requires k < |text| <= 0x1000_0001 && text[k].c != '\n' && at == CursorAfter(cur, text[..k])
    requires dx < 9 && dy < 16 && x == On(at.x, dx) && y == On(at.y, dy)
    requires x < g.width && y < g.height && p == x + y * g.stride
    ensures p < |fb|
    ensures Write(fb, g, font, cur, text)[p] ==
            if Bit(font[(text[k].c as nat - 32) * 9 + dx], dy) then text[k].fg else 0
  {
    hide CursorAfter, Write, Bit, On, Ink, InCell;
    assert Printable(text[k].c);
    CellShows(font, at, text[k], dx, dy);
    assert CellOf(cur, text, k) == Cell(at.x, at.y, text[k].c, text[k].fg);
    WordOfCell(fb, g, font, cur, text, k, x, y, p);
  }

  /** A single character. */
  lemma OneCharacter(fb: seq<Color>, g: Geometry, font: seq<nat>, at: Cursor, c: char, fg: Color,
      dx: nat, dy: nat, x: nat, y: nat)
    requires GoodGeometry(g) && GoodFont(font) && |fb| == g.height * g.stride && ' ' <= c <= '~'
    requires dx < 9 && dy < 16 && x == (at.x + dx) % 0x1_0000_0000 && y == (at.y + dy) % 0x1_0000_0000
    requires x < g.width && y < g.height
    ensures x + y * g.stride < |fb|
    ensures Write(fb, g, font, at, [Glyph(c, fg)])[x + y * g.stride] ==
            if Bit(font[(c as nat - 32) * 9 + dx], dy) then fg else 0
  {
    var text := [Glyph(c, fg)];
    assert text[..0] == [];
    CharacterShows(fb, g, font, at, text, 0, at, dx, dy, x, y, x + y * g.stride);
  }

  /** Words that are no pixel of any character of the text keep their value. */
  lemma OtherwiseUnchanged(fb: seq<Color>, g: Geometry, font: seq<nat>, cur: Cursor, text: seq<Glyph>, p: nat)
    requires GoodGeometry(g) && GoodFont(font) && GoodText(text) && p < |fb|
    requires p % g.stride >= g.width || p / g.stride >= g.height ||
             forall k, dx, dy :: 0 <= k < |text| && text[k].c != '\n' && 0 <= dx < 9 && 0 <= dy < 16 ==>
               var at := CursorAfter(cur, text[..k]);
               !(On(at.x, dx) == p % g.stride && On(at.y, dy) == p / g.stride)
    ensures Write(fb, g, font, cur, text)[p] == fb[p]
  {
    var (x, y) := (p % g.stride, p / g.stride);
    if Visible(g, p) {
      forall k | 0 <= k < |text| ensures !Covers(cur, text, k, x, y) {
        if Covers(cur, text, k, x, y) { CoveredIsOn(cur, text, k, x, y); }
      }
    }
    hide Covers, CursorAfter, On;
    PixelElsewhere(fb, g, font, cur, text, p);
  }

  lemma CoveredIsOn(cur: Cursor, text: seq<Glyph>, k: nat, x: nat, y: nat)
    requires k < |text| && Covers(cur, text, k, x, y)
    ensures var at := CursorAfter(cur, text[..k]);
      x < 0x1_0000_0000 && y < 0x1_0000_0000 &&
      Delta(at.x, x) < 9 && Delta(at.y, y) < 16 && On(at.x, Delta(at.x, x)) == x && On(at.y, Delta(at.y, y)) == y
  {
    var at := CursorAfter(cur, text[..k]);
    Console.DeltaIs(at.x, Delta(at.x, x), x);
    Console.DeltaIs(at.y, Delta(at.y, y), y);
  }

  // ----- the cursor -----

  /** Each newline is one line of 16 pixels down. */
  lemma LineIs(cur: Cursor, text: seq<Glyph>)
    ensures CursorAfter(cur, text).y == (cur.y + 16 * Newlines(text)) % 0x1_0000_0000
  {
    CursorMoves(cur, text);
  }

  /** Without newlines, each character is one cell of 9 pixels to the right. */
  lemma ColumnIs(cur: Cursor, text: seq<Glyph>)
    requires forall k :: 0 <= k < |text| ==> text[k].c != '\n'
    ensures CursorAfter(cur, text) == Cursor((cur.x + 9 * |text|) % 0x1_0000_0000, cur.y)
  {
    NoNewlines(text);
    CursorMoves(cur, text);
  }

  lemma {:induction false} NoNewlines(text: seq<Glyph>)
    requires forall k :: 0 <= k < |text| ==> text[k].c != '\n'
    ensures Newlines(text) == 0
  {
    if text == [] {
    } else {
      NoNewlines(text[..|text| - 1]);
    }
  }

  /** After a newline the text goes on in the first column, wherever the line before ended. */
  lemma ColumnAfterNewline(cur: Cursor, a: seq<Glyph>, newline: Glyph, b: seq<Glyph>)
    requires newline.c == '\n' && forall k :: 0 <= k < |b| ==> b[k].c != '\n'
    ensures CursorAfter(cur, a + [newline] + b).x == 9 * |b| % 0x1_0000_0000
  {
    var line := a + [newline];
    assert line[..|line| - 1] == a;
    CursorConcat(cur, line, b);
    ColumnIs(CursorAfter(cur, line), b);
  }

  lemma {:induction false} NewlinesConcat(a: seq<Glyph>, b: seq<Glyph>)
    ensures Newlines(a + b) == Newlines(a) + Newlines(b)
    decreases |b|
  {
    if b == [] {
      assert a + b == a;
    } else {
      assert (a + b)[..|a + b| - 1] == a + b[..|b| - 1];
      NewlinesConcat(a, b[..|b| - 1]);
    }
  }
}
