/** The block-font text renderer of animations/utils/text_render.py: fonts
    map a character to its glyph, a list of equal-width rows in which a
    space is an unlit pixel. Text is laid out left to right by a cursor
    that advances by the glyph width plus one column of spacing, or by 2
    for a character the font lacks. */
module TextRender {
  import opened Common
  import opened Surface
  import Screen

  type Glyph = seq<string>
  type Font = map<char, Glyph>

  /** The default 5-row by 3-column font. */
  const Font5x3: Font := map[
    '0' := ["███", "█ █", "█ █", "█ █", "███"],
    '1' := [" █ ", "██ ", " █ ", " █ ", "███"],
    '2' := ["███", "  █", "███", "█  ", "███"],
    '3' := ["███", "  █", "███", "  █", "███"],
    '4' := ["█ █", "█ █", "███", "  █", "  █"],
    '5' := ["███", "█  ", "███", "  █", "███"],
    '6' := ["███", "█  ", "███", "█ █", "███"],
    '7' := ["███", "  █", "  █", "  █", "  █"],
    '8' := ["███", "█ █", "███", "█ █", "███"],
    '9' := ["███", "█ █", "███", "  █", "███"],
    ':' := ["   ", " █ ", "   ", " █ ", "   "],
    '-' := ["   ", "   ", "███", "   ", "   "],
    '/' := ["  █", " █ ", " █ ", " █ ", "█  "],
    ' ' := ["   ", "   ", "   ", "   ", "   "],
    '.' := ["   ", "   ", "   ", "   ", " █ "],
    'A' := ["███", "█ █", "███", "█ █", "█ █"],
    'P' := ["███", "█ █", "███", "█  ", "█  "],
    'M' := ["█ █", "███", "█ █", "█ █", "█ █"]
  ]

  /** The 5 by 5 font. */
  const FontHuge: Font := map[
    '0' := ["█████", "█   █", "█   █", "█   █", "█████"],
    '1' := ["  █  ", " ██  ", "  █  ", "  █  ", "█████"],
    '2' := ["█████", "    █", "█████", "█    ", "█████"],
    '3' := ["█████", "    █", "  ███", "    █", "█████"],
    '4' := ["█   █", "█   █", "█████", "    █", "    █"],
    '5' := ["█████", "█    ", "█████", "    █", "█████"],
    '6' := ["█████", "█    ", "█████", "█   █", "█████"],
    '7' := ["█████", "    █", "   █ ", "  █  ", "  █  "],
    '8' := ["█████", "█   █", "█████", "█   █", "█████"],
    '9' := ["█████", "█   █", "█████", "    █", "█████"],
    ':' := ["     ", "  █  ", "     ", "  █  ", "     "],
    '-' := ["     ", "     ", "█████", "     ", "     "],
    ' ' := ["     ", "     ", "     ", "     ", "     "]
  ]

  /** The thin 3 by 3 font. */
  const Font3x3: Font := map[
    '0' := ["█▀█", "█ █", "▀▀▀"],
    '1' := [" █ ", " █ ", " ▀ "],
    '2' := ["▀▀█", "█▀▀", "▀▀▀"],
    '3' := ["▀▀█", " ▀█", "▀▀▀"],
    '4' := ["█ █", "▀▀█", "  ▀"],
    '5' := ["█▀▀", "▀▀█", "▀▀▀"],
    '6' := ["█▀▀", "█▀█", "▀▀▀"],
    '7' := ["▀▀█", "  █", "  ▀"],
    '8' := ["█▀█", "█▀█", "▀▀▀"],
    '9' := ["█▀█", "▀▀█", "▀▀▀"],
    ':' := [" ● ", "   ", " ● "],
    ' ' := ["   ", "   ", "   "]
  ]

  /** Every glyph of the font has `rows` rows of `cols` characters. */
  predicate UniformFont(font: Font, rows: nat, cols: nat)
  {
    forall c :: c in font ==> |font[c]| == rows && forall r :: 0 <= r < rows ==> |font[c][r]| == cols
  }

  lemma Font5x3Shape()
    ensures UniformFont(Font5x3, 5, 3)
  {
    forall c | c in Font5x3
      ensures |Font5x3[c]| == 5 && forall r :: 0 <= r < 5 ==> |Font5x3[c][r]| == 3
    {
    }
  }

  lemma FontHugeShape()
    ensures UniformFont(FontHuge, 5, 5)
  {
    forall c | c in FontHuge
      ensures |FontHuge[c]| == 5 && forall r :: 0 <= r < 5 ==> |FontHuge[c][r]| == 5
    {
    }
  }

  lemma Font3x3Shape()
    ensures UniformFont(Font3x3, 3, 3)
  {
    forall c | c in Font3x3
      ensures |Font3x3[c]| == 3 && forall r :: 0 <= r < 3 ==> |Font3x3[c][r]| == 3
    {
    }
  }

  // ---------------------------------------------------------------------
  // Measuring

  /** len(grid[0]) if grid else 0. */
  function GlyphWidth(g: Glyph): nat
  {
    if |g| > 0 then |g[0]| else 0
  }

  /** How far the cursor moves past one character. */
  function Advance(font: Font, ch: char): (a: nat)
    ensures a >= 1
    ensures ch !in font ==> a == 2
  {
    if ch in font then GlyphWidth(font[ch]) + 1 else 2
  }

  /** The sum of the advances of the characters of text. */
  function RawWidth(text: string, font: Font): nat
  {
    if |text| == 0 then 0 else RawWidth(text[..|text| - 1], font) + Advance(font, text[|text| - 1])
  }

  /** get_text_width: the advances without the trailing column of
      spacing, and 0 for the empty text. */
  function TextWidth(text: string, font: Font): (w: nat)
    ensures text == [] ==> w == 0
  {
    Max(0, RawWidth(text, font) - 1)
  }

  lemma {:induction false} RawWidthAppend(a: string, b: string, font: Font)
    ensures RawWidth(a + b, font) == RawWidth(a, font) + RawWidth(b, font)
    decreases |b|
  {
    if |b| == 0 {
      assert a + b == a;
    } else {
      assert (a + b)[..|a + b| - 1] == a + b[..|b| - 1];
      RawWidthAppend(a, b[..|b| - 1], font);
    }
  }

  /** Text of n characters, all in a font whose glyphs are `cols` wide,
      is (cols + 1) * n - 1 columns wide. */
  lemma {:induction false} TextWidthUniform(text: string, font: Font, rows: nat, cols: nat)
    requires UniformFont(font, rows, cols) && rows > 0
    requires forall i :: 0 <= i < |text| ==> text[i] in font
    ensures RawWidth(text, font) == (cols + 1) * |text|
    ensures |text| > 0 ==> TextWidth(text, font) == (cols + 1) * |text| - 1
    decreases |text|
  {
    if |text| > 0 {
      TextWidthUniform(text[..|text| - 1], font, rows, cols);
      assert GlyphWidth(font[text[|text| - 1]]) == cols;
    }
  }

  /** The loop of get_text_width. */
  method GetTextWidth(text: string, font: Font) returns (w: nat)
    ensures w == TextWidth(text, font)
  {
    var width := 0;
    for i := 0 to |text|
      invariant width == RawWidth(text[..i], font)
    {
      assert text[..i + 1][..i] == text[..i];
      if text[i] in font {
        width := width + GlyphWidth(font[text[i]]) + 1;
      } else {
        width := width + 2;
      }
    }
    assert text[..|text|] == text;
    w := Max(0, width - 1);
  }

  /** get_text_height: the row count of the glyph of '0', or 5 if the font
      has none. */
  function TextHeight(font: Font): nat
  {
    if '0' in font then |font['0']| else 5
  }

  lemma TextHeights()
    ensures TextHeight(Font5x3) == 5 && TextHeight(FontHuge) == 5 && TextHeight(Font3x3) == 3
    ensures TextHeight(map[]) == 5
  {
  }

  // ---------------------------------------------------------------------
  // Layout

  /** A lit glyph pixel placed on the screen: its position and the font's
      character at that pixel. */
  datatype Pixel = Pixel(x: int, y: int, p: char)

  /** The lit pixels of one glyph row whose first column is at x, left to
      right. */
  function RowPixels(row: string, x: int, y: int): (ps: seq<Pixel>)
    ensures |ps| <= |row|
  {
    if |row| == 0 then []
    else
      var c := |row| - 1;
      RowPixels(row[..c], x, y) + (if row[c] != ' ' then [Pixel(x + c, y, row[c])] else [])
  }

  /** The lit pixels of a glyph with its top-left corner at (x, y), row by
      row. */
  function GlyphPixels(g: Glyph, x: int, y: int): seq<Pixel>
  {
    if |g| == 0 then []
    else
      var r := |g| - 1;
      GlyphPixels(g[..r], x, y) + RowPixels(g[r], x, y + r)
  }

  function CharPixels(font: Font, ch: char, x: int, y: int): seq<Pixel>
  {
    if ch in font then GlyphPixels(font[ch], x, y) else []
  }

  /** The lit pixels of a text whose cursor starts at x, character after
      character, each at the cursor reached after the characters before
      it. */
  function TextPixels(text: string, font: Font, x: int, y: int): seq<Pixel>
  {
    if |text| == 0 then []
    else
      var i := |text| - 1;
      TextPixels(text[..i], font, x, y) + CharPixels(font, text[i], x + RawWidth(text[..i], font), y)
  }

  /** Some pixel of ps lies at (x, y). */
  predicate Covered(ps: seq<Pixel>, y: int, x: int)
  {
    exists k :: 0 <= k < |ps| && ps[k].x == x && ps[k].y == y
  }

  /** The pixel q is a non-space character of the row whose first column
      is at x, on screen row y. */
  predicate InRow(row: string, x: int, y: int, q: Pixel)
  {
    q.y == y && x <= q.x < x + |row| && q.p == row[q.x - x] && q.p != ' '
  }

  /** Every pixel of a row is a non-space character of the row, at
      column x + its index. */
  lemma {:induction false} RowPixelsSound(row: string, x: int, y: int)
    ensures forall k :: 0 <= k < |RowPixels(row, x, y)| ==> InRow(row, x, y, RowPixels(row, x, y)[k])
    decreases |row|
  {
    if |row| > 0 {
      var c := |row| - 1;
      RowPixelsSound(row[..c], x, y);
      var ps := RowPixels(row, x, y);
      var qs := RowPixels(row[..c], x, y);
      forall k | 0 <= k < |ps|
        ensures InRow(row, x, y, ps[k])
      {
        if k < |qs| {
          assert ps[k] == qs[k];
          assert InRow(row[..c], x, y, qs[k]);
        }
      }
    }
  }

  /** The pixels of a row go strictly left to right, so no column is
      drawn twice. */
  lemma {:induction false} RowPixelsIncreasing(row: string, x: int, y: int)
    ensures forall k, l :: 0 <= k < l < |RowPixels(row, x, y)| ==> RowPixels(row, x, y)[k].x < RowPixels(row, x, y)[l].x
    decreases |row|
  {
    if |row| > 0 {
      var c := |row| - 1;
      RowPixelsIncreasing(row[..c], x, y);
      RowPixelsSound(row[..c], x, y);
      var ps := RowPixels(row, x, y);
      var qs := RowPixels(row[..c], x, y);
      forall k, l | 0 <= k < l < |ps|
        ensures ps[k].x < ps[l].x
      {
        assert ps[k] == qs[k];
        assert InRow(row[..c], x, y, qs[k]);
        if l < |qs| {
          assert ps[l] == qs[l];
        }
      }
    }
  }

  /** Every non-space character of a row is drawn. */
  lemma {:induction false} RowPixelsComplete(row: string, x: int, y: int)
    ensures forall c :: 0 <= c < |row| && row[c] != ' ' ==> Covered(RowPixels(row, x, y), y, x + c)
    decreases |row|
  {
    if |row| > 0 {
      var last := |row| - 1;
      var init := row[..last];
      RowPixelsComplete(init, x, y);
      var ps := RowPixels(row, x, y);
      var qs := RowPixels(init, x, y);
      forall c | 0 <= c < |row| && row[c] != ' '
        ensures Covered(ps, y, x + c)
      {
        if c < last {
          assert init[c] == row[c];
          var k :| 0 <= k < |qs| && qs[k].x == x + c && qs[k].y == y;
          assert ps[k] == qs[k];
        } else {
          assert ps[|ps| - 1] == Pixel(x + c, y, row[c]);
        }
      }
    }
  }

  /** The pixel q is a non-space pixel of the glyph whose top-left
      corner is at (x, y). */
  predicate InGlyph(g: Glyph, x: int, y: int, q: Pixel)
  {
    0 <= q.y - y < |g| && InRow(g[q.y - y], x, q.y, q)
  }

  /** Every pixel of a glyph is a non-space pixel of it, at (x + column,
      y + row). */
  lemma {:induction false} GlyphPixelsSound(g: Glyph, x: int, y: int)
    ensures forall k :: 0 <= k < |GlyphPixels(g, x, y)| ==> InGlyph(g, x, y, GlyphPixels(g, x, y)[k])
    decreases |g|
  {
    if |g| > 0 {
      var r := |g| - 1;
      var init := g[..r];
      GlyphPixelsSound(init, x, y);
      RowPixelsSound(g[r], x, y + r);
      var ps := GlyphPixels(g, x, y);
      var qs := GlyphPixels(init, x, y);
      var rs := RowPixels(g[r], x, y + r);
      assert ps == qs + rs;
      forall k | 0 <= k < |ps|
        ensures InGlyph(g, x, y, ps[k])
      {
        if k < |qs| {
          assert ps[k] == qs[k];
          assert InGlyph(init, x, y, qs[k]);
          assert init[qs[k].y - y] == g[qs[k].y - y];
        } else {
          assert ps[k] == rs[k - |qs|];
          assert InRow(g[r], x, y + r, rs[k - |qs|]);
        }
      }
    }
  }

  /** p comes strictly before q in row-major order. */
  predicate Before(p: Pixel, q: Pixel)
  {
    p.y < q.y || (p.y == q.y && p.x < q.x)
  }

  /** The pixels of a glyph go in row-major order, so no pixel is drawn
      twice. */
  lemma {:induction false} GlyphPixelsIncreasing(g: Glyph, x: int, y: int)
    ensures forall k, l :: 0 <= k < l < |GlyphPixels(g, x, y)| ==> Before(GlyphPixels(g, x, y)[k], GlyphPixels(g, x, y)[l])
    decreases |g|
  {
    if |g| > 0 {
      var r := |g| - 1;
      var init := g[..r];
      GlyphPixelsIncreasing(init, x, y);
      GlyphPixelsSound(init, x, y);
      RowPixelsSound(g[r], x, y + r);
      RowPixelsIncreasing(g[r], x, y + r);
      var ps := GlyphPixels(g, x, y);
      var qs := GlyphPixels(init, x, y);
      var rs := RowPixels(g[r], x, y + r);
      assert ps == qs + rs;
      forall k, l | 0 <= k < l < |ps|
        ensures Before(ps[k], ps[l])
      {
        if l < |qs| {
          assert ps[k] == qs[k] && ps[l] == qs[l];
        } else if k >= |qs| {
          assert ps[k] == rs[k - |qs|] && ps[l] == rs[l - |qs|];
          assert InRow(g[r], x, y + r, rs[k - |qs|]) && InRow(g[r], x, y + r, rs[l - |qs|]);
        } else {
          assert ps[k] == qs[k] && ps[l] == rs[l - |qs|];
          assert InGlyph(init, x, y, qs[k]) && InRow(g[r], x, y + r, rs[l - |qs|]);
        }
      }
    }
  }

  lemma CoveredAppend(qs: seq<Pixel>, rs: seq<Pixel>, y: int, x: int)
    ensures Covered(qs, y, x) || Covered(rs, y, x) ==> Covered(qs + rs, y, x)
  {
    if Covered(qs, y, x) {
      var k :| 0 <= k < |qs| && qs[k].x == x && qs[k].y == y;
      assert (qs + rs)[k] == qs[k];
    } else if Covered(rs, y, x) {
      var k :| 0 <= k < |rs| && rs[k].x == x && rs[k].y == y;
      assert (qs + rs)[|qs| + k] == rs[k];
    }
  }

  /** Every non-space pixel of a glyph is drawn. */
  lemma {:induction false} GlyphPixelsComplete(g: Glyph, x: int, y: int)
    ensures forall r, c :: 0 <= r < |g| && 0 <= c < |g[r]| && g[r][c] != ' ' ==>
      Covered(GlyphPixels(g, x, y), y + r, x + c)
    decreases |g|
  {
    if |g| > 0 {
      var last := |g| - 1;
      var init := g[..last];
      GlyphPixelsComplete(init, x, y);
      RowPixelsComplete(g[last], x, y + last);
      var qs := GlyphPixels(init, x, y);
      var rs := RowPixels(g[last], x, y + last);
      assert GlyphPixels(g, x, y) == qs + rs;
      forall r, c | 0 <= r < |g| && 0 <= c < |g[r]| && g[r][c] != ' '
        ensures Covered(qs + rs, y + r, x + c)
      {
        if r < last {
          assert init[r] == g[r];
        }
        CoveredAppend(qs, rs, y + r, x + c);
      }
    }
  }

  /** Every non-space pixel of every known character of the text is
      drawn, at the cursor its predecessors leave plus its column, on the
      start row plus its row. */
  lemma {:induction false} TextPixelsComplete(text: string, font: Font, x: int, y: int)
    ensures forall i, r, c ::
              (0 <= i < |text| && text[i] in font && 0 <= r < |font[text[i]]| &&
               0 <= c < |font[text[i]][r]| && font[text[i]][r][c] != ' ') ==>
              Covered(TextPixels(text, font, x, y), y + r, x + RawWidth(text[..i], font) + c)
    decreases |text|
  {
    if |text| > 0 {
      var n := |text| - 1;
      var t := text[..n];
      TextPixelsComplete(t, font, x, y);
      var qs := TextPixels(t, font, x, y);
      var rs := CharPixels(font, text[n], x + RawWidth(t, font), y);
      assert TextPixels(text, font, x, y) == qs + rs;
      forall i, r, c | 0 <= i < n && text[i] in font && 0 <= r < |font[text[i]]|
        && 0 <= c < |font[text[i]][r]| && font[text[i]][r][c] != ' '
        ensures Covered(qs + rs, y + r, x + RawWidth(text[..i], font) + c)
      {
        assert t[i] == text[i] && t[..i] == text[..i];
        CoveredAppend(qs, rs, y + r, x + RawWidth(text[..i], font) + c);
      }
      assert text[..n] == t;
      if text[n] in font {
        var g := font[text[n]];
        GlyphPixelsComplete(g, x + RawWidth(t, font), y);
        forall r, c | 0 <= r < |g| && 0 <= c < |g[r]| && g[r][c] != ' '
          ensures Covered(qs + rs, y + r, x + RawWidth(t, font) + c)
        {
          CoveredAppend(qs, rs, y + r, x + RawWidth(t, font) + c);
        }
      }
    }
  }

  /** Each character is laid out at the cursor the characters before it
      leave: the start plus the sum of their advances. */
  lemma TextPixelsSnoc(t: string, ch: char, font: Font, x: int, y: int)
    ensures TextPixels(t + [ch], font, x, y) == TextPixels(t, font, x, y) + CharPixels(font, ch, x + RawWidth(t, font), y)
    ensures RawWidth(t + [ch], font) == RawWidth(t, font) + Advance(font, ch)
  {
    assert (t + [ch])[..|t|] == t;
  }

  // ---------------------------------------------------------------------
  // Drawing

  /** The character drawn for a lit pixel: `char` replaces the solid
      pixels '█', '#' and '*'; any other pixel is drawn as itself. */
  function Display(p: char, ch: string): string
  {
    if p == '█' || p == '#' || p == '*' then ch else [p]
  }

  /** The set_pixel calls for a run of pixels, at full intensity. */
  function AsWrites(ps: seq<Pixel>, ch: string, z: real, color: Option<string>): (ws: seq<Write>)
    ensures |ws| == |ps|
  {
    seq(|ps|, k requires 0 <= k < |ps| => Write(ps[k].x, ps[k].y, Display(ps[k].p, ch), z, color, 1.0))
  }

  lemma AsWritesSnoc(ps: seq<Pixel>, q: Pixel, ch: string, z: real, color: Option<string>)
    ensures AsWrites(ps + [q], ch, z, color) == AsWrites(ps, ch, z, color) + [Write(q.x, q.y, Display(q.p, ch), z, color, 1.0)]
  {
  }

  /** One more pixel drawn on the plotted pixels so far. */
  lemma DrawStep(c0: Grid, w: nat, h: nat, done: seq<Pixel>, q: Pixel, ch: string, z: real, color: Option<string>)
    requires IsGrid(c0, w, h)
    ensures Surface.SetPixel(Plot(c0, w, h, AsWrites(done, ch, z, color)), w, h, Write(q.x, q.y, Display(q.p, ch), z, color, 1.0)).0
         == Plot(c0, w, h, AsWrites(done + [q], ch, z, color))
  {
    AsWritesSnoc(done, q, ch, z, color);
    Surface.PlotSnoc(c0, w, h, AsWrites(done, ch, z, color), Write(q.x, q.y, Display(q.p, ch), z, color, 1.0));
  }

  /** draw_big_text: int() of the start position, then the text drawn at
      the cursor; returns the final cursor and the font height. */
  method DrawBigText(buffer: Screen.ScreenBuffer, x: real, y: real, text: string, color: Option<string>,
                     z: real, font: Font, ch: string)
    returns (endX: int, height: nat)
    requires buffer.Valid()
    modifies buffer
    ensures buffer.Valid()
    ensures buffer.cells == Plot(old(buffer.cells), buffer.width, buffer.height,
                                 AsWrites(TextPixels(text, font, Trunc(x), Trunc(y)), ch, z, color))
    ensures endX == Trunc(x) + RawWidth(text, font) && height == TextHeight(font)
  {
    endX, height := DrawBigTextAt(buffer, Trunc(x), Trunc(y), text, color, z, font, ch);
  }

  /** draw_big_text once its start position is an integer. */
  method DrawBigTextAt(buffer: Screen.ScreenBuffer, x: int, y: int, text: string, color: Option<string>,
                       z: real, font: Font, ch: string)
    returns (endX: int, height: nat)
    requires buffer.Valid()
    modifies buffer
    ensures buffer.Valid()
    ensures buffer.cells == Plot(old(buffer.cells), buffer.width, buffer.height,
                                 AsWrites(TextPixels(text, font, x, y), ch, z, color))
    ensures endX == x + RawWidth(text, font) && height == TextHeight(font)
  {
    ghost var c0 := buffer.cells;
    var w, h := buffer.width, buffer.height;
    var cursor := x;
    for i := 0 to |text|
      invariant buffer.Valid()
      invariant cursor == x + RawWidth(text[..i], font)
      invariant buffer.cells == Plot(c0, w, h, AsWrites(TextPixels(text[..i], font, x, y), ch, z, color))
    {
      ghost var done := TextPixels(text[..i], font, x, y);
      TextPixelsStep(text, i, font, x, y);
      var next := DrawChar(buffer, font, text[i], cursor, y, color, z, ch);
      DrawAppend(c0, w, h, done, CharPixels(font, text[i], cursor, y), ch, z, color);
      cursor := next;
    }
    assert text[..|text|] == text;
    endX := cursor;
    height := if '0' in font then |font['0']| else 5;
  }

  lemma TextPixelsStep(text: string, i: nat, font: Font, x: int, y: int)
    requires i < |text|
    ensures TextPixels(text[..i + 1], font, x, y)
         == TextPixels(text[..i], font, x, y) + CharPixels(font, text[i], x + RawWidth(text[..i], font), y)
    ensures RawWidth(text[..i + 1], font) == RawWidth(text[..i], font) + Advance(font, text[i])
  {
    TextPixelsSnoc(text[..i], text[i], font, x, y);
    assert text[..i + 1] == text[..i] + [text[i]];
  }

  /** One character of draw_big_text at the cursor: its glyph when the
      font has it; the cursor then moves past the glyph and one column of
      spacing, or by two columns for a character the font lacks. */
  method DrawChar(buffer: Screen.ScreenBuffer, font: Font, c: char, cursor: int, y: int, color: Option<string>,
                  z: real, ch: string)
    returns (next: int)
    requires buffer.Valid()
    modifies buffer
    ensures buffer.Valid()
    ensures buffer.cells == Plot(old(buffer.cells), buffer.width, buffer.height,
                                 AsWrites(CharPixels(font, c, cursor, y), ch, z, color))
    ensures next == cursor + Advance(font, c)
  {
    if c in font {
      var grid := font[c];
      var charWidth := if |grid| > 0 then |grid[0]| else 0;
      DrawGlyph(buffer, grid, cursor, y, color, z, ch);
      next := cursor + charWidth + 1;
    } else {
      next := cursor + 2;
    }
  }

  /** The lit pixels of one glyph drawn row by row. */
  method DrawGlyph(buffer: Screen.ScreenBuffer, grid: Glyph, x: int, y: int, color: Option<string>,
                   z: real, ch: string)
    requires buffer.Valid()
    modifies buffer
    ensures buffer.Valid()
    ensures buffer.cells == Plot(old(buffer.cells), buffer.width, buffer.height,
                                 AsWrites(GlyphPixels(grid, x, y), ch, z, color))
  {
    ghost var c0 := buffer.cells;
    var w, h := buffer.width, buffer.height;
    for r := 0 to |grid|
      invariant buffer.Valid()
      invariant buffer.cells == Plot(c0, w, h, AsWrites(GlyphPixels(grid[..r], x, y), ch, z, color))
    {
      ghost var before := buffer.cells;
      DrawRow(buffer, grid[r], x, y + r, color, z, ch);
      GlyphRowDrawn(c0, w, h, grid, r, x, y, ch, z, color, before, buffer.cells);
    }
    assert grid[..|grid|] == grid;
  }

  /** Drawing row r of a glyph after its rows before r draws its rows up
      to r. */
  lemma GlyphRowDrawn(c0: Grid, w: nat, h: nat, grid: Glyph, r: nat, x: int, y: int, ch: string, z: real,
                      color: Option<string>, before: Grid, after: Grid)
    requires IsGrid(c0, w, h) && r < |grid|
    requires before == Plot(c0, w, h, AsWrites(GlyphPixels(grid[..r], x, y), ch, z, color))
    requires after == Plot(before, w, h, AsWrites(RowPixels(grid[r], x, y + r), ch, z, color))
    ensures after == Plot(c0, w, h, AsWrites(GlyphPixels(grid[..r + 1], x, y), ch, z, color))
  {
    GlyphPixelsStep(grid, r, x, y);
    DrawAppend(c0, w, h, GlyphPixels(grid[..r], x, y), RowPixels(grid[r], x, y + r), ch, z, color);
  }

  /** The lit pixels of one glyph row drawn left to right. */
  method DrawRow(buffer: Screen.ScreenBuffer, row: string, x: int, y: int, color: Option<string>,
                 z: real, ch: string)
    requires buffer.Valid()
    modifies buffer
    ensures buffer.Valid()
    ensures buffer.cells == Plot(old(buffer.cells), buffer.width, buffer.height,
                                 AsWrites(RowPixels(row, x, y), ch, z, color))
  {
    ghost var c0 := buffer.cells;
    var w, h := buffer.width, buffer.height;
    for c := 0 to |row|
      invariant buffer.Valid()
      invariant buffer.cells == Plot(c0, w, h, AsWrites(RowPixels(row[..c], x, y), ch, z, color))
    {
      ghost var done := RowPixels(row[..c], x, y);
      RowPixelsStep(row, c, x, y);
      if row[c] != ' ' {
        DrawStep(c0, w, h, done, Pixel(x + c, y, row[c]), ch, z, color);
        var _ := buffer.SetPixelAt(x + c, y, Display(row[c], ch), z, color, 1.0);
      } else {
        assert RowPixels(row[..c + 1], x, y) == done;
      }
    }
    assert row[..|row|] == row;
  }

  /** Drawing the pixels a, then the pixels b, is drawing a + b. */
  lemma DrawAppend(c0: Grid, w: nat, h: nat, a: seq<Pixel>, b: seq<Pixel>, ch: string, z: real, color: Option<string>)
    requires IsGrid(c0, w, h)
    ensures Plot(Plot(c0, w, h, AsWrites(a, ch, z, color)), w, h, AsWrites(b, ch, z, color))
         == Plot(c0, w, h, AsWrites(a + b, ch, z, color))
  {
    AsWritesAppend(a, b, ch, z, color);
    PlotAppend(c0, w, h, AsWrites(a, ch, z, color), AsWrites(b, ch, z, color));
  }

  lemma AsWritesAppend(a: seq<Pixel>, b: seq<Pixel>, ch: string, z: real, color: Option<string>)
    ensures AsWrites(a + b, ch, z, color) == AsWrites(a, ch, z, color) + AsWrites(b, ch, z, color)
  {
  }

  lemma RowPixelsStep(row: string, c: nat, x: int, y: int)
    requires c < |row|
    ensures RowPixels(row[..c + 1], x, y)
         == RowPixels(row[..c], x, y) + (if row[c] != ' ' then [Pixel(x + c, y, row[c])] else [])
  {
    assert row[..c + 1][..c] == row[..c];
  }

  lemma GlyphPixelsStep(g: Glyph, r: nat, x: int, y: int)
    requires r < |g|
    ensures GlyphPixels(g[..r + 1], x, y) == GlyphPixels(g[..r], x, y) + RowPixels(g[r], x, y + r)
  {
    assert g[..r + 1][..r] == g[..r];
  }

  /** draw_big_text_centered: the text starts at ((width - tw) // 2,
      (height - th) // 2 + y_offset), floor division. */
  method DrawBigTextCentered(buffer: Screen.ScreenBuffer, width: int, height: int, text: string,
                             yOffset: int, color: Option<string>, z: real, font: Font)
    returns (startX: int, startY: int, textWidth: nat, textHeight: nat)
    requires buffer.Valid()
    modifies buffer
    ensures buffer.Valid()
    ensures textWidth == TextWidth(text, font) && textHeight == TextHeight(font)
    ensures startX == FloorHalf(width - textWidth) && startY == FloorHalf(height - textHeight) + yOffset
    ensures buffer.cells == Plot(old(buffer.cells), buffer.width, buffer.height,
                                 AsWrites(TextPixels(text, font, startX, startY), "█", z, color))
  {
    textWidth := GetTextWidth(text, font);
    textHeight := TextHeight(font);
    startX := (width - textWidth) / 2;
    startY := (height - textHeight) / 2 + yOffset;
    var _, _ := DrawBigTextAt(buffer, startX, startY, text, color, z, font, "█");
  }

  /** Python's n // 2: the margins it leaves on the two sides differ by at
      most one, the larger on the right. */
  function FloorHalf(n: int): (h: int)
    ensures h <= n - h <= h + 1
  {
    if n >= 0 then n / 2 else -((-n + 1) / 2)
  }

  // ---------------------------------------------------------------------
  // Text mask

  /** Every row that holds a lit pixel of a character of the text lies
      within the font height, so the mask has a row for it. */
  predicate InkWithinHeight(text: string, font: Font)
  {
    forall i, r, c ::
      (0 <= i < |text| && text[i] in font && 0 <= r < |font[text[i]]| &&
       0 <= c < |font[text[i]][r]| && font[text[i]][r][c] != ' ') ==> r < TextHeight(font)
  }

  /** The mask get_text_mask returns: text_height rows of text_width
      cells, True where a lit pixel of the text laid out from (0, 0)
      lands. */
  function MaskSpec(text: string, font: Font): (m: seq<seq<bool>>)
  {
    var ps := TextPixels(text, font, 0, 0);
    var th, tw := TextHeight(font), TextWidth(text, font);
    seq(th, r requires 0 <= r < th => seq(tw, c requires 0 <= c < tw => Covered(ps, r, c)))
  }

  lemma CoveredSnoc(ps: seq<Pixel>, q: Pixel, y: int, x: int)
    ensures Covered(ps + [q], y, x) <==> Covered(ps, y, x) || (q.y == y && q.x == x)
  {
    if Covered(ps, y, x) {
      var k :| 0 <= k < |ps| && ps[k].x == x && ps[k].y == y;
      assert (ps + [q])[k] == ps[k];
    }
    if q.y == y && q.x == x {
      assert (ps + [q])[|ps|] == q;
    }
  }

  /** get_text_mask: a blank mask, then the lit pixels of each glyph
      marked at the advancing cursor, skipping columns past the text
      width. */
  method GetTextMask(text: string, font: Font) returns (mask: seq<seq<bool>>)
    requires InkWithinHeight(text, font)
    ensures mask == MaskSpec(text, font)
  {
    var tw := GetTextWidth(text, font);
    var th := TextHeight(font);
    mask := seq(th, _ => seq(tw, _ => false));
    ghost var done: seq<Pixel> := [];
    var cursor := 0;
    for i := 0 to |text|
      invariant MaskShaped(mask, th, tw)
      invariant cursor == RawWidth(text[..i], font)
      invariant done == TextPixels(text[..i], font, 0, 0)
      invariant MarksCovered(mask, th, tw, done)
    {
      TextPixelsSnoc(text[..i], text[i], font, 0, 0);
      assert text[..i + 1] == text[..i] + [text[i]];
      if text[i] in font {
        var grid := font[text[i]];
        var charWidth := if |grid| > 0 then |grid[0]| else 0;
        assert GlyphInkBelow(grid, th) by {
          forall r, c | 0 <= r < |grid| && 0 <= c < |grid[r]| && grid[r][c] != ' '
            ensures r < th
          {
            assert font[text[i]][r][c] != ' ';
          }
        }
        mask := MarkGlyph(mask, th, tw, done, grid, cursor);
        done := done + GlyphPixels(grid, cursor, 0);
        cursor := cursor + charWidth + 1;
      } else {
        cursor := cursor + 2;
      }
    }
    assert text[..|text|] == text;
    forall r | 0 <= r < th
      ensures mask[r] == MaskSpec(text, font)[r]
    {
    }
  }

  /** Every lit pixel of grid lies on a row of the mask. */
  predicate GlyphInkBelow(grid: Glyph, th: nat)
  {
    forall r, c :: 0 <= r < |grid| && 0 <= c < |grid[r]| && grid[r][c] != ' ' ==> r < th
  }

  /** The loops of get_text_mask over one glyph at cursor x. */
  method MarkGlyph(mask: seq<seq<bool>>, th: nat, tw: nat, ghost ps: seq<Pixel>, grid: Glyph, x: nat)
    returns (marked: seq<seq<bool>>)
    requires MaskShaped(mask, th, tw) && MarksCovered(mask, th, tw, ps)
    requires GlyphInkBelow(grid, th)
    ensures MaskShaped(marked, th, tw)
    ensures MarksCovered(marked, th, tw, ps + GlyphPixels(grid, x, 0))
  {
    marked := mask;
    assert ps + GlyphPixels(grid[..0], x, 0) == ps;
    for r := 0 to |grid|
      invariant MaskShaped(marked, th, tw)
      invariant MarksCovered(marked, th, tw, ps + GlyphPixels(grid[..r], x, 0))
    {
      GlyphPixelsStep(grid, r, x, 0);
      ghost var done := ps + GlyphPixels(grid[..r], x, 0);
      assert RowInkBelow(grid[r], r, th);
      marked := MarkRow(marked, th, tw, done, grid[r], x, r);
      assert done + RowPixels(grid[r], x, r) == ps + GlyphPixels(grid[..r + 1], x, 0);
    }
    assert grid[..|grid|] == grid;
  }

  /** Every lit pixel of row lies on a row of the mask. */
  predicate RowInkBelow(row: string, r: int, th: nat)
  {
    forall c :: 0 <= c < |row| && row[c] != ' ' ==> r < th
  }

  /** The inner loops of get_text_mask for one glyph row at mask row r:
      each lit pixel left of the text width marks its cell. */
  method MarkRow(mask: seq<seq<bool>>, th: nat, tw: nat, ghost ps: seq<Pixel>, row: string, x: nat, r: nat)
    returns (marked: seq<seq<bool>>)
    requires MaskShaped(mask, th, tw) && MarksCovered(mask, th, tw, ps)
    requires RowInkBelow(row, r, th)
    ensures MaskShaped(marked, th, tw)
    ensures MarksCovered(marked, th, tw, ps + RowPixels(row, x, r))
  {
    marked := mask;
    assert ps + RowPixels(row[..0], x, r) == ps;
    for c := 0 to |row|
      invariant MaskShaped(marked, th, tw)
      invariant MarksCovered(marked, th, tw, ps + RowPixels(row[..c], x, r))
    {
      RowPixelsStep(row, c, x, r);
      ghost var done := ps + RowPixels(row[..c], x, r);
      if row[c] != ' ' {
        var q := Pixel(x + c, r, row[c]);
        assert ps + RowPixels(row[..c + 1], x, r) == done + [q];
        if x + c < tw {
          MarkStep(marked, th, tw, done, q);
          marked := marked[r := marked[r][x + c := true]];
        } else {
          SkipStep(marked, th, tw, done, q);
        }
      } else {
        assert ps + RowPixels(row[..c + 1], x, r) == done;
      }
    }
    assert row[..|row|] == row;
  }

  /** mask has th rows of tw cells each. */
  predicate MaskShaped(mask: seq<seq<bool>>, th: nat, tw: nat)
  {
    |mask| == th && forall r :: 0 <= r < th ==> |mask[r]| == tw
  }

  /** Cell (r, c) of the mask is set exactly where a pixel of ps lies. */
  predicate MarksCovered(mask: seq<seq<bool>>, th: nat, tw: nat, ps: seq<Pixel>)
    requires MaskShaped(mask, th, tw)
  {
    forall r, c :: 0 <= r < th && 0 <= c < tw ==> mask[r][c] == Covered(ps, r, c)
  }

  lemma MarkStep(mask: seq<seq<bool>>, th: nat, tw: nat, ps: seq<Pixel>, q: Pixel)
    requires MaskShaped(mask, th, tw) && MarksCovered(mask, th, tw, ps)
    requires 0 <= q.y < th && 0 <= q.x < tw
    ensures MaskShaped(mask[q.y := mask[q.y][q.x := true]], th, tw)
    ensures MarksCovered(mask[q.y := mask[q.y][q.x := true]], th, tw, ps + [q])
  {
    forall r, c | 0 <= r < th && 0 <= c < tw
      ensures mask[q.y := mask[q.y][q.x := true]][r][c] == Covered(ps + [q], r, c)
    {
      CoveredSnoc(ps, q, r, c);
    }
  }

  lemma SkipStep(mask: seq<seq<bool>>, th: nat, tw: nat, ps: seq<Pixel>, q: Pixel)
    requires MaskShaped(mask, th, tw) && MarksCovered(mask, th, tw, ps)
    requires q.x >= tw
    ensures MarksCovered(mask, th, tw, ps + [q])
  {
    forall r, c | 0 <= r < th && 0 <= c < tw
      ensures mask[r][c] == Covered(ps + [q], r, c)
    {
      CoveredSnoc(ps, q, r, c);
    }
  }
}
