/** The time mask shared by the life timer (t_life_timer.py:38-58) and the
    matrix clock (t_matrix_clock.py:113-133): the screen positions of the
    lit pixels of the time string laid out in a block font from (tx, ty).
    Unlike get_text_mask, the cursor advances three columns past an
    unknown character, the glyph width is read from the glyph's first row,
    and no position is clipped. Both files spell out the same loops; the
    model holds them once. */
module ClockMask {
  import opened Common
  import opened TextRender

  /** Every character of the text that the font knows has a first row:
      the loops read bitmap[0]. */
  predicate Readable(text: string, font: Font)
  {
    forall i :: 0 <= i < |text| && text[i] in font ==> |font[text[i]]| > 0
  }

  /** How far the cursor moves past one character. */
  function MaskAdvance(font: Font, ch: char): (a: nat)
    requires ch in font ==> |font[ch]| > 0
    ensures a >= 1
    ensures ch in font ==> a == |font[ch][0]| + 1
    ensures ch !in font ==> a == 3
  {
    if ch in font then |font[ch][0]| + 1 else 3
  }

  /** The cursor offset after the characters of text. */
  function MaskCursor(text: string, font: Font): nat
    requires Readable(text, font)
  {
    if |text| == 0 then 0
    else
      var i := |text| - 1;
      MaskCursor(text[..i], font) + MaskAdvance(font, text[i])
  }

  /** The positions of the lit pixels of a glyph row whose first column
      is at x, on screen row y. */
  function RowSet(row: string, x: int, y: int): set<Pos>
  {
    if |row| == 0 then {}
    else
      var c := |row| - 1;
      RowSet(row[..c], x, y) + (if row[c] != ' ' then {(x + c, y)} else {})
  }

  /** The positions of the lit pixels of a glyph whose top-left corner is
      at (x, y). */
  function GlyphSet(g: Glyph, x: int, y: int): set<Pos>
  {
    if |g| == 0 then {}
    else
      var r := |g| - 1;
      GlyphSet(g[..r], x, y) + RowSet(g[r], x, y + r)
  }

  /** The positions a character adds: its glyph's, or none for a
      character the font does not know. */
  function CharSet(font: Font, ch: char, x: int, y: int): set<Pos>
  {
    if ch in font then GlyphSet(font[ch], x, y) else {}
  }

  /** The mask the loops leave behind: the lit positions of each
      character's glyph, at the cursor the characters before it leave. */
  function MaskSet(text: string, font: Font, x: int, y: int): set<Pos>
    requires Readable(text, font)
  {
    if |text| == 0 then {}
    else
      var i := |text| - 1;
      MaskSet(text[..i], font, x, y) + CharSet(font, text[i], x + MaskCursor(text[..i], font), y)
  }

  /** One more character adds the positions of its glyph at the cursor. */
  lemma MaskSetSnoc(t: string, ch: char, font: Font, x: int, y: int)
    requires Readable(t + [ch], font)
    ensures Readable(t, font)
    ensures MaskSet(t + [ch], font, x, y) == MaskSet(t, font, x, y) + CharSet(font, ch, x + MaskCursor(t, font), y)
    ensures MaskCursor(t + [ch], font) == MaskCursor(t, font) + MaskAdvance(font, ch)
  {
    assert forall i :: 0 <= i < |t| ==> t[i] == (t + [ch])[i];
    assert (t + [ch])[..|t|] == t;
  }

  lemma ReadablePrefix(text: string, font: Font, i: nat)
    requires Readable(text, font) && i <= |text|
    ensures Readable(text[..i], font)
  {
    assert forall j :: 0 <= j < i ==> text[..i][j] == text[j];
  }

  // ---------------------------------------------------------------------
  // What the mask holds

  /** Column c of row is lit and lands on p. */
  predicate LitInRow(row: string, x: int, y: int, p: Pos, c: int)
  {
    0 <= c < |row| && row[c] != ' ' && p == (x + c, y)
  }

  /** A row's set holds exactly the positions of its lit columns. */
  lemma {:induction false} RowSetMembers(row: string, x: int, y: int)
    ensures forall p :: p in RowSet(row, x, y) <==> exists c :: LitInRow(row, x, y, p, c)
    decreases |row|
  {
    if |row| > 0 {
      var n := |row| - 1;
      RowSetMembers(row[..n], x, y);
      forall p | p in RowSet(row, x, y)
        ensures exists c :: LitInRow(row, x, y, p, c)
      {
        if p in RowSet(row[..n], x, y) {
          var c :| LitInRow(row[..n], x, y, p, c);
          assert LitInRow(row, x, y, p, c);
        } else {
          assert LitInRow(row, x, y, p, n);
        }
      }
      forall p, c | LitInRow(row, x, y, p, c)
        ensures p in RowSet(row, x, y)
      {
        if c < n {
          assert LitInRow(row[..n], x, y, p, c);
        }
      }
    }
  }

  /** Row r, column c of the glyph is lit and lands on p. */
  predicate LitInGlyph(g: Glyph, x: int, y: int, p: Pos, r: int, c: int)
  {
    0 <= r < |g| && LitInRow(g[r], x, y + r, p, c)
  }

  /** A glyph's set holds exactly the positions of its lit pixels. */
  lemma {:induction false} GlyphSetMembers(g: Glyph, x: int, y: int)
    ensures forall p :: p in GlyphSet(g, x, y) <==> exists r, c :: LitInGlyph(g, x, y, p, r, c)
    decreases |g|
  {
    if |g| > 0 {
      var n := |g| - 1;
      GlyphSetMembers(g[..n], x, y);
      RowSetMembers(g[n], x, y + n);
      forall p | p in GlyphSet(g, x, y)
        ensures exists r, c :: LitInGlyph(g, x, y, p, r, c)
      {
        if p in GlyphSet(g[..n], x, y) {
          var r, c :| LitInGlyph(g[..n], x, y, p, r, c);
          assert LitInGlyph(g, x, y, p, r, c);
        } else {
          var c :| LitInRow(g[n], x, y + n, p, c);
          assert LitInGlyph(g, x, y, p, n, c);
        }
      }
      forall p, r, c | LitInGlyph(g, x, y, p, r, c)
        ensures p in GlyphSet(g, x, y)
      {
        if r < n {
          assert LitInGlyph(g[..n], x, y, p, r, c);
        } else {
          assert LitInRow(g[n], x, y + n, p, c);
        }
      }
    }
  }

  /** The lit pixel (r, c) of the i-th character of the text, placed on
      the screen, is at p. */
  predicate LitAt(text: string, font: Font, tx: int, ty: int, p: Pos, i: int, r: int, c: int)
    requires Readable(text, font)
  {
    0 <= i < |text| && text[i] in font &&
    LitInGlyph(font[text[i]], tx + MaskCursor(text[..i], font), ty, p, r, c)
  }

  /** A position is in the mask exactly when a lit glyph pixel of one of
      the characters lands on it. */
  lemma MaskMembers(text: string, font: Font, tx: int, ty: int)
    requires Readable(text, font)
    ensures forall p :: p in MaskSet(text, font, tx, ty) <==>
      exists i, r, c :: LitAt(text, font, tx, ty, p, i, r, c)
  {
    MaskSound(text, font, tx, ty);
    MaskComplete(text, font, tx, ty);
  }

  /** A lit pixel of the character at i of t + [ch] is one of t's. */
  lemma LitAtPrefix(t: string, ch: char, font: Font, tx: int, ty: int, p: Pos, i: int, r: int, c: int)
    requires Readable(t + [ch], font) && Readable(t, font) && i < |t|
    ensures LitAt(t + [ch], font, tx, ty, p, i, r, c) <==> LitAt(t, font, tx, ty, p, i, r, c)
  {
    if 0 <= i {
      assert (t + [ch])[i] == t[i];
      assert (t + [ch])[..i] == t[..i];
    }
  }

  /** The last character's lit pixels, in terms of LitAt. */
  lemma LitAtLast(t: string, ch: char, font: Font, tx: int, ty: int, p: Pos, r: int, c: int)
    requires Readable(t + [ch], font) && Readable(t, font)
    ensures LitAt(t + [ch], font, tx, ty, p, |t|, r, c) <==>
      ch in font && LitInGlyph(font[ch], tx + MaskCursor(t, font), ty, p, r, c)
  {
    assert (t + [ch])[..|t|] == t;
    assert (t + [ch])[|t|] == ch;
  }

  lemma {:induction false} MaskSound(text: string, font: Font, tx: int, ty: int)
    requires Readable(text, font)
    ensures forall p :: p in MaskSet(text, font, tx, ty) ==>
      exists i, r, c :: LitAt(text, font, tx, ty, p, i, r, c)
    decreases |text|
  {
    if |text| > 0 {
      var n := |text| - 1;
      var t, ch := text[..n], text[n];
      assert text == t + [ch];
      MaskSetSnoc(t, ch, font, tx, ty);
      MaskSound(t, font, tx, ty);
      var x := tx + MaskCursor(t, font);
      forall p | p in MaskSet(text, font, tx, ty)
        ensures exists i, r, c :: LitAt(text, font, tx, ty, p, i, r, c)
      {
        if p in MaskSet(t, font, tx, ty) {
          var i, r, c :| LitAt(t, font, tx, ty, p, i, r, c);
          LitAtPrefix(t, ch, font, tx, ty, p, i, r, c);
        } else {
          GlyphSetMembers(font[ch], x, ty);
          var r, c :| LitInGlyph(font[ch], x, ty, p, r, c);
          LitAtLast(t, ch, font, tx, ty, p, r, c);
        }
      }
    }
  }

  lemma {:induction false} MaskComplete(text: string, font: Font, tx: int, ty: int)
    requires Readable(text, font)
    ensures forall p, i, r, c :: LitAt(text, font, tx, ty, p, i, r, c) ==> p in MaskSet(text, font, tx, ty)
    decreases |text|
  {
    if |text| > 0 {
      var n := |text| - 1;
      var t, ch := text[..n], text[n];
      assert text == t + [ch];
      MaskSetSnoc(t, ch, font, tx, ty);
      MaskComplete(t, font, tx, ty);
      forall p, i, r, c | LitAt(text, font, tx, ty, p, i, r, c)
        ensures p in MaskSet(text, font, tx, ty)
      {
        if i < n {
          LitAtPrefix(t, ch, font, tx, ty, p, i, r, c);
        } else {
          LitAtLast(t, ch, font, tx, ty, p, r, c);
          GlyphSetMembers(font[ch], tx + MaskCursor(t, font), ty);
        }
      }
    }
  }

  /** With a font whose glyphs are all `rows` by `cols`, the mask lies in
      the box of the text: rows [ty, ty + rows), columns from tx up to
      the cursor's final offset. */
  lemma MaskInBox(text: string, font: Font, tx: int, ty: int, rows: nat, cols: nat)
    requires Readable(text, font) && UniformFont(font, rows, cols)
    ensures forall p :: p in MaskSet(text, font, tx, ty) ==>
      tx <= p.0 < tx + MaskCursor(text, font) && ty <= p.1 < ty + rows
  {
    MaskSound(text, font, tx, ty);
    forall p | p in MaskSet(text, font, tx, ty)
      ensures tx <= p.0 < tx + MaskCursor(text, font) && ty <= p.1 < ty + rows
    {
      var i, r, c :| LitAt(text, font, tx, ty, p, i, r, c);
      CursorGrows(text, font, i);
      ReadablePrefix(text, font, i);
      assert text[..i + 1] == text[..i] + [text[i]];
      MaskSetSnoc(text[..i], text[i], font, tx, ty);
    }
  }

  /** The cursor never moves left. */
  lemma {:induction false} CursorGrows(text: string, font: Font, i: nat)
    requires Readable(text, font) && i < |text|
    ensures Readable(text[..i + 1], font)
    ensures MaskCursor(text[..i + 1], font) <= MaskCursor(text, font)
    decreases |text|
  {
    var n := |text| - 1;
    assert text == text[..n] + [text[n]];
    MaskSetSnoc(text[..n], text[n], font, 0, 0);
    if i < n {
      assert text[..n][..i + 1] == text[..i + 1];
      CursorGrows(text[..n], font, i);
    } else {
      assert text[..i + 1] == text;
    }
  }

  // ---------------------------------------------------------------------
  // The loops

  /** The mask loops: an empty set, then the lit pixels of each known
      character added at the advancing cursor. */
  method BuildMask(text: string, font: Font, tx: int, ty: int) returns (mask: set<Pos>)
    requires Readable(text, font)
    ensures mask == MaskSet(text, font, tx, ty)
  {
    mask := {};
    var cursor := tx;
    for i := 0 to |text|
      invariant cursor == tx + MaskCursor(text[..i], font)
      invariant mask == MaskSet(text[..i], font, tx, ty)
    {
      ReadablePrefix(text, font, i + 1);
      assert text[..i + 1] == text[..i] + [text[i]];
      MaskSetSnoc(text[..i], text[i], font, tx, ty);
      if text[i] in font {
        var bitmap := font[text[i]];
        mask := AddGlyph(mask, bitmap, cursor, ty);
        cursor := cursor + |bitmap[0]| + 1;
      } else {
        cursor := cursor + 3;
      }
    }
    assert text[..|text|] == text;
  }

  /** The loops over one glyph whose top-left corner is at (x, y). */
  method AddGlyph(mask: set<Pos>, bitmap: Glyph, x: int, y: int) returns (added: set<Pos>)
    ensures added == mask + GlyphSet(bitmap, x, y)
  {
    added := mask;
    for r := 0 to |bitmap|
      invariant added == mask + GlyphSet(bitmap[..r], x, y)
    {
      assert bitmap[..r + 1][..r] == bitmap[..r];
      added := AddRow(added, bitmap[r], x, y + r);
    }
    assert bitmap[..|bitmap|] == bitmap;
  }

  /** The loop over one glyph row whose first column is at x. */
  method AddRow(mask: set<Pos>, row: string, x: int, y: int) returns (added: set<Pos>)
    ensures added == mask + RowSet(row, x, y)
  {
    added := mask;
    for c := 0 to |row|
      invariant added == mask + RowSet(row[..c], x, y)
    {
      assert row[..c + 1][..c] == row[..c];
      if row[c] != ' ' {
        added := added + {(x + c, y)};
      }
    }
    assert row[..|row|] == row;
  }
}
