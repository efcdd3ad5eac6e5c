/** The matrix clock (animations/time/t_matrix_clock.py): one falling
    line of characters per column, each with its own speed and length;
    where a line crosses a pixel of the time string the pixel is drawn
    as a solid block in the accent colour. Randomness is a parameter:
    the draws of a new line, the head character and reset draws of each
    line per frame, and the tail characters by column and offset. */
module MatrixClock {
  import opened Common
  import opened Surface
  import Screen
  import Colors
  import opened TextRender
  import ClockMask

  // ---------------------------------------------------------------------
  // The masked-pixel glyph

  /** The glyph masked pixels are meant to show: U+2588 FULL BLOCK. */
  const MaskGlyph: string := "█"

  /** The literal the source draws masked pixels with: the three UTF-8
      bytes of U+2588 each read back as a Windows-1252 character. */
  const MaskGlyphAsWritten: string := "â–ˆ"

  /** The UTF-8 encoding of a code point of the basic multilingual plane
      above U+07FF: three bytes 1110xxxx 10xxxxxx 10xxxxxx. */
  function Utf8Three(cp: int): (bs: seq<int>)
    requires 0x800 <= cp <= 0xFFFF
    ensures |bs| == 3 && forall i :: 0 <= i < 3 ==> 0x80 <= bs[i] <= 0xFF
  {
    [0xE0 + cp / 0x1000, 0x80 + (cp / 0x40) % 0x40, 0x80 + cp % 0x40]
  }

  /** Windows-1252 decoding of the bytes 0x80 to 0xFF: the 0x80 to 0x9F
      row has its own table (the entries below are the ones this model
      needs; the rest map to U+FFFD here), the 0xA0 to 0xFF row is
      Latin-1. */
  function Cp1252(b: int): char
    requires 0x80 <= b <= 0xFF
  {
    if b >= 0xA0 then b as char
    else if b == 0x88 then 'ˆ'
    else if b == 0x96 then '–'
    else '�'
  }

  function Cp1252Decode(bs: seq<int>): (s: string)
    requires forall i :: 0 <= i < |bs| ==> 0x80 <= bs[i] <= 0xFF
    ensures |s| == |bs|
  {
    if bs == [] then "" else [Cp1252(bs[0])] + Cp1252Decode(bs[1..])
  }

  /** The literal of the source is the full block mis-decoded: three
      characters where one was meant, none of them the block. */
  lemma MaskGlyphMisDecoded()
    ensures Utf8Three(0x2588) == [0xE2, 0x96, 0x88]
    ensures MaskGlyphAsWritten == Cp1252Decode(Utf8Three(0x2588))
    ensures |MaskGlyphAsWritten| == 3 && |MaskGlyph| == 1
    ensures MaskGlyphAsWritten != MaskGlyph
    ensures forall i :: 0 <= i < 3 ==> MaskGlyphAsWritten[i] != MaskGlyph[0]
  {
    var bs := Utf8Three(0x2588);
    assert bs == [0xE2, 0x96, 0x88];
    assert Cp1252Decode(bs) == [Cp1252(0xE2)] + Cp1252Decode([0x96, 0x88]) by {
      assert bs[1..] == [0x96, 0x88];
    }
    assert Cp1252Decode([0x96, 0x88]) == [Cp1252(0x96)] + Cp1252Decode([0x88]) by {
      assert [0x96, 0x88][1..] == [0x88];
    }
    assert Cp1252Decode([0x88]) == [Cp1252(0x88)] by {
      assert [0x88][1..] == [];
    }
  }

  /** The glyph the corrected model draws for a masked pixel is the one
      character U+2588. */
  lemma MaskGlyphIsFullBlock()
    ensures |MaskGlyph| == 1 && MaskGlyph[0] as int == 0x2588
  {
  }

  /** As written, a row with a masked pixel shows at least two more
      characters than it has cells once its colour codes are stripped, so
      it no longer fits the terminal line it was sized for. */
  lemma AsWrittenRowOverflows(row: seq<Cell>, i: nat)
    requires i < |row| && row[i].glyph == MaskGlyphAsWritten
    requires forall x :: 0 <= x < |row| ==> |row[x].glyph| >= 1
    ensures |GlyphText(RowParts(row))| >= |row| + 2
  {
    MaskGlyphMisDecoded();
    StrippedRowIsGlyphs(row);
    RowGlyphsWidth(row, |row|, i);
  }

  /** With the block, a row of one-character glyphs shows exactly one
      character per cell. */
  lemma CorrectedRowFits(row: seq<Cell>)
    requires forall x :: 0 <= x < |row| ==> |row[x].glyph| == 1
    ensures |GlyphText(RowParts(row))| == |row|
  {
    StrippedRowIsGlyphs(row);
    RowGlyphsNarrow(row, |row|);
  }

  // ---------------------------------------------------------------------
  // Lines

  /** A falling line: its head row, its speed (0 the fastest), the frame
      counter pacing it, its length and its head character. */
  datatype MatrixLine = MatrixLine(y: int, spd: int, counter: int, length: int, ch: char)

  /** The draws of a new or reset line: randint(0, h // 2) for how far
      above the screen it starts, randint(0, 4), randint(h // 5, h // 2)
      and randint(33, 126) for the head character. */
  datatype LineDraw = LineDraw(drop: int, spd: int, length: int, code: int)

  predicate LineDrawOk(d: LineDraw, h: nat)
  {
    0 <= d.drop <= h / 2 && 0 <= d.spd <= 4 && h / 5 <= d.length <= h / 2 && CodeOk(d.code)
  }

  predicate CodeOk(code: int)
  {
    33 <= code <= 126
  }

  /** MatrixLine(max_height). */
  function NewLine(d: LineDraw): MatrixLine
    requires CodeOk(d.code)
  {
    MatrixLine(-d.drop, d.spd, 0, d.length, d.code as char)
  }

  /** A line as it can be at rest on a screen of height h: speed and
      length in the ranges of the draws, counter within its speed, head
      no higher than h // 2 above the screen, tail not yet below it, head
      character printable ASCII. */
  predicate LineOk(l: MatrixLine, h: nat)
  {
    && 0 <= l.spd <= 4 && 0 <= l.counter <= l.spd
    && h / 5 <= l.length <= h / 2
    && -(h / 2) <= l.y && l.y - l.length <= h
    && 33 <= l.ch as int <= 126
  }

  predicate LinesOk(ls: seq<MatrixLine>, h: nat)
  {
    forall i :: 0 <= i < |ls| ==> LineOk(ls[i], h)
  }

  /** [MatrixLine(height) for _ in range(width)], from one draw per
      column. */
  function NewLines(spawn: seq<LineDraw>, h: nat): (ls: seq<MatrixLine>)
    requires forall i :: 0 <= i < |spawn| ==> LineDrawOk(spawn[i], h)
    ensures |ls| == |spawn| && LinesOk(ls, h)
    ensures forall i :: 0 <= i < |spawn| ==> LineDrawOk(spawn[i], h) && ls[i] == NewLine(spawn[i])
  {
    seq(|spawn|, i requires 0 <= i < |spawn| && LineDrawOk(spawn[i], h) => NewLine(spawn[i]))
  }

  lemma NewLineOk(d: LineDraw, h: nat)
    requires LineDrawOk(d, h)
    ensures LineOk(NewLine(d), h)
  {
  }

  /** One frame of one line: the counter advances; once it passes the
      speed the line drops a row with a new head character, and a line
      whose tail has left the bottom is drawn again above the screen. */
  function LineStep(l: MatrixLine, h: nat, head: int, r: LineDraw): MatrixLine
    requires CodeOk(head)
  {
    var c := l.counter + 1;
    if c > l.spd then
      var y := l.y + 1;
      if y - l.length > h then MatrixLine(-r.drop, r.spd, 0, r.length, head as char)
      else l.(counter := 0, y := y, ch := head as char)
    else l.(counter := c)
  }

  /** A line step keeps the line at rest on the screen. */
  lemma LineStepKeeps(l: MatrixLine, h: nat, head: int, r: LineDraw)
    requires LineOk(l, h) && CodeOk(head) && LineDrawOk(r, h)
    ensures LineOk(LineStep(l, h, head, r), h)
  {
  }

  /** The pace of a line: it moves exactly on the frame its counter
      reaches its speed, once every spd + 1 frames; then it drops one row
      or, only when every one of its rows is below the screen, starts
      again above it. */
  lemma LinePace(l: MatrixLine, h: nat, head: int, r: LineDraw)
    requires LineOk(l, h) && CodeOk(head)
    ensures l.counter < l.spd ==> LineStep(l, h, head, r) == l.(counter := l.counter + 1)
    ensures l.counter == l.spd ==>
      var n := LineStep(l, h, head, r);
      n.counter == 0 && n.ch == head as char &&
      (n.y == l.y + 1 || (n.y == -r.drop && forall off :: 0 <= off < l.length ==> BelowScreen(l, off, h)))
  {
  }

  /** Once l drops a row, its row at offset off is below a screen of
      height h. */
  predicate BelowScreen(l: MatrixLine, off: int, h: nat)
  {
    l.y + 1 - off > h
  }

  /** Every line's step, column by column. */
  function StepAll(ls: seq<MatrixLine>, h: nat, heads: seq<int>, resets: seq<LineDraw>): (r: seq<MatrixLine>)
    requires |heads| == |ls| && |resets| == |ls| && forall i :: 0 <= i < |heads| ==> CodeOk(heads[i])
    ensures |r| == |ls|
    ensures forall i :: 0 <= i < |ls| ==> r[i] == LineStep(ls[i], h, heads[i], resets[i])
  {
    seq(|ls|, i requires 0 <= i < |ls| => LineStep(ls[i], h, heads[i], resets[i]))
  }

  /** Every line stays at rest on the screen. */
  lemma StepAllOk(ls: seq<MatrixLine>, h: nat, heads: seq<int>, resets: seq<LineDraw>)
    requires |heads| == |ls| && |resets| == |ls| && forall i :: 0 <= i < |heads| ==> CodeOk(heads[i])
    requires LinesOk(ls, h) && forall i :: 0 <= i < |resets| ==> LineDrawOk(resets[i], h)
    ensures LinesOk(StepAll(ls, h, heads, resets), h)
  {
    forall i | 0 <= i < |ls|
      ensures LineOk(StepAll(ls, h, heads, resets)[i], h)
    {
      LineStepKeeps(ls[i], h, heads[i], resets[i]);
    }
  }

  // ---------------------------------------------------------------------
  // Drawing a line

  /** The depth of a tail character at offset off of a line of the given
      length: 5, 8 or 11 as off / length is below 0.4, below 0.7, or
      not. */
  function TailDepth(off: int, length: int): int
    requires length > 0
  {
    var fade := off as real / length as real;
    if fade < 0.4 then 5 else if fade < 0.7 then 8 else 11
  }

  /** The tail dims with distance from the head. */
  lemma TailDepthMonotone(a: int, b: int, length: int)
    requires length > 0 && a <= b
    ensures TailDepth(a, length) <= TailDepth(b, length)
  {
    assert a as real / length as real <= b as real / length as real by {
      DivMonotone(a as real, b as real, length as real);
    }
  }

  lemma DivMonotone(a: real, b: real, c: real)
    requires c > 0.0 && a <= b
    ensures a / c <= b / c
  {
  }

  /** The tail character drawn at depth z for the draw code. */
  function TailGlyph(z: int, code: int): string
    requires CodeOk(code)
  {
    if z == 5 then [code as char] else if z == 8 then Colors.Lower([code as char]) else "."
  }

  /** Every row drawn from offset off of a line in column x. */
  predicate Drawn(l: MatrixLine, off: int, h: nat)
  {
    0 <= l.y - off < h
  }

  ghost predicate TailCodesOk(tailCode: (int, int) -> int)
  {
    forall x, off :: CodeOk(tailCode(x, off))
  }

  /** The write for offset off of the line in column x: a masked pixel
      is a block in the accent colour at depth -10; otherwise the head
      is its character in the accent colour at depth 2 and the tail a
      dimmer character coloured by its depth over [0, 12]. */
  function PixelWrite(l: MatrixLine, x: int, off: int, mask: set<Pos>, accent: string, gradient: seq<string>,
                      tailCode: (int, int) -> int): Write
    requires |gradient| > 0 && TailCodesOk(tailCode) && 0 <= off < l.length
  {
    var dy := l.y - off;
    if (x, dy) in mask then Write(x, dy, MaskGlyph, -10.0, Some(accent), 1.0)
    else if off == 0 then Write(x, dy, [l.ch], 2.0, Some(accent), 1.0)
    else
      var z := TailDepth(off, l.length);
      Write(x, dy, TailGlyph(z, tailCode(x, off)), z as real, Some(Colors.DepthColor(gradient, z as real, 0.0, 12.0)), 1.0)
  }

  /** The writes of the first n offsets of the line in column x, the
      rows off the screen skipped. */
  function LineWrites(l: MatrixLine, x: int, h: nat, n: nat, mask: set<Pos>, accent: string, gradient: seq<string>,
                      tailCode: (int, int) -> int): seq<Write>
    requires |gradient| > 0 && TailCodesOk(tailCode) && n <= l.length
  {
    if n == 0 then []
    else LineWrites(l, x, h, n - 1, mask, accent, gradient, tailCode)
         + (if Drawn(l, n - 1, h) then [PixelWrite(l, x, n - 1, mask, accent, gradient, tailCode)] else [])
  }

  /** A line draws only in its own column and only on rows of the
      screen, never more than length rows. */
  lemma {:induction false} LineWritesInColumn(l: MatrixLine, x: int, h: nat, n: nat, mask: set<Pos>, accent: string,
                                               gradient: seq<string>, tailCode: (int, int) -> int)
    requires |gradient| > 0 && TailCodesOk(tailCode) && n <= l.length
    ensures |LineWrites(l, x, h, n, mask, accent, gradient, tailCode)| <= n
    ensures forall wr :: wr in LineWrites(l, x, h, n, mask, accent, gradient, tailCode) ==> wr.x == x && 0 <= wr.y < h
  {
    if n > 0 {
      LineWritesInColumn(l, x, h, n - 1, mask, accent, gradient, tailCode);
    }
  }

  /** A masked pixel is the block at depth -10, nearer than anything else
      a line draws; an unmasked one is never the block. */
  lemma MaskedPixel(l: MatrixLine, x: int, off: int, mask: set<Pos>, accent: string, gradient: seq<string>,
                    tailCode: (int, int) -> int)
    requires |gradient| > 0 && TailCodesOk(tailCode) && 0 <= off < l.length
    ensures var wr := PixelWrite(l, x, off, mask, accent, gradient, tailCode);
      && ((x, l.y - off) in mask ==> wr.glyph == MaskGlyph && wr.z == -10.0 && wr.color == Some(accent))
      && ((x, l.y - off) !in mask ==> wr.z >= 2.0)
  {
  }

  /** All lines' writes, column by column. */
  function FrameWrites(ls: seq<MatrixLine>, h: nat, n: nat, mask: set<Pos>, accent: string, gradient: seq<string>,
                       tailCode: (int, int) -> int): seq<Write>
    requires |gradient| > 0 && TailCodesOk(tailCode) && n <= |ls| && forall i :: 0 <= i < |ls| ==> ls[i].length >= 0
  {
    if n == 0 then []
    else FrameWrites(ls, h, n - 1, mask, accent, gradient, tailCode)
         + LineWrites(ls[n - 1], n - 1, h, ls[n - 1].length, mask, accent, gradient, tailCode)
  }

  // ---------------------------------------------------------------------
  // The loops of a frame

  /** The update of one line. */
  method UpdateLine(line: MatrixLine, height: nat, head: int, r: LineDraw) returns (l: MatrixLine)
    requires CodeOk(head)
    ensures l == LineStep(line, height, head, r)
  {
    l := line.(counter := line.counter + 1);
    if l.counter > l.spd {
      l := l.(counter := 0, y := l.y + 1);
      l := l.(ch := head as char);
      if l.y - l.length > height {
        l := l.(y := -r.drop, spd := r.spd, length := r.length);
      }
    }
  }

  /** The branches of the draw loop's body: what offset off of the line
      in column x is drawn with. */
  method PixelStyle(l: MatrixLine, x: int, off: int, mask: set<Pos>, accent: string, gradient: seq<string>,
                    tailCode: (int, int) -> int)
    returns (glyph: string, z: real, color: Option<string>)
    requires |gradient| > 0 && TailCodesOk(tailCode) && 0 <= off < l.length
    ensures Write(x, l.y - off, glyph, z, color, 1.0) == PixelWrite(l, x, off, mask, accent, gradient, tailCode)
  {
    var drawY := l.y - off;
    if (x, drawY) in mask {
      glyph, z, color := MaskGlyph, -10.0, Some(accent);
    } else if off == 0 {
      glyph, z, color := [l.ch], 2.0, Some(accent);
    } else {
      var depth := TailDepth(off, l.length);
      glyph := TailGlyph(depth, tailCode(x, off));
      z := depth as real;
      color := Some(Colors.DepthColor(gradient, depth as real, 0.0, 12.0));
    }
  }

  /** The draw loop of one line, head to tail. */
  method DrawLine(buffer: Screen.ScreenBuffer, l: MatrixLine, x: int, height: nat, mask: set<Pos>, accent: string,
                  gradient: seq<string>, tailCode: (int, int) -> int)
    requires buffer.Valid() && |gradient| > 0 && TailCodesOk(tailCode) && l.length >= 0
    modifies buffer
    ensures buffer.Valid()
    ensures buffer.cells == Plot(old(buffer.cells), buffer.width, buffer.height,
                                 LineWrites(l, x, height, l.length, mask, accent, gradient, tailCode))
  {
    ghost var c0 := buffer.cells;
    var bw, bh := buffer.width, buffer.height;
    for off := 0 to l.length
      invariant buffer.Valid()
      invariant buffer.cells == Plot(c0, bw, bh, LineWrites(l, x, height, off, mask, accent, gradient, tailCode))
    {
      var drawY := l.y - off;
      if 0 <= drawY < height {
        var glyph, z, color := PixelStyle(l, x, off, mask, accent, gradient, tailCode);
        PlotSnoc(c0, bw, bh, LineWrites(l, x, height, off, mask, accent, gradient, tailCode),
                 Write(x, drawY, glyph, z, color, 1.0));
        var _ := buffer.SetPixelAt(x, drawY, glyph, z, color, 1.0);
      } else {
        assert LineWrites(l, x, height, off + 1, mask, accent, gradient, tailCode)
            == LineWrites(l, x, height, off, mask, accent, gradient, tailCode);
      }
    }
  }

  /** The loop over the columns: update each line, then draw it. */
  method StepAndDraw(buffer: Screen.ScreenBuffer, ls: seq<MatrixLine>, height: nat, heads: seq<int>, resets: seq<LineDraw>,
                     mask: set<Pos>, accent: string, gradient: seq<string>, tailCode: (int, int) -> int)
    returns (lines: seq<MatrixLine>)
    requires buffer.Valid() && |gradient| > 0 && TailCodesOk(tailCode)
    requires |heads| == |ls| && |resets| == |ls| && forall i :: 0 <= i < |heads| ==> CodeOk(heads[i])
    requires LinesOk(ls, height) && forall i :: 0 <= i < |resets| ==> LineDrawOk(resets[i], height)
    modifies buffer
    ensures buffer.Valid()
    ensures lines == StepAll(ls, height, heads, resets) && LinesOk(lines, height)
    ensures buffer.cells == Plot(old(buffer.cells), buffer.width, buffer.height,
                                 FrameWrites(lines, height, |lines|, mask, accent, gradient, tailCode))
  {
    ghost var c0 := buffer.cells;
    ghost var target := StepAll(ls, height, heads, resets);
    var bw, bh := buffer.width, buffer.height;
    StepAllOk(ls, height, heads, resets);
    lines := ls;
    for x := 0 to |ls|
      invariant buffer.Valid()
      invariant |lines| == |ls|
      invariant forall i :: 0 <= i < x ==> lines[i] == target[i]
      invariant forall i :: x <= i < |ls| ==> lines[i] == ls[i]
      invariant buffer.cells == Plot(c0, bw, bh, FrameWrites(target, height, x, mask, accent, gradient, tailCode))
    {
      var l := UpdateLine(lines[x], height, heads[x], resets[x]);
      assert l == target[x];
      lines := lines[x := l];
      ghost var before := FrameWrites(target, height, x, mask, accent, gradient, tailCode);
      ghost var added := LineWrites(l, x, height, l.length, mask, accent, gradient, tailCode);
      assert FrameWrites(target, height, x + 1, mask, accent, gradient, tailCode) == before + added;
      DrawLine(buffer, l, x, height, mask, accent, gradient, tailCode);
      PlotAppend(c0, bw, bh, before, added);
    }
    assert lines == target;
  }

  // ---------------------------------------------------------------------
  // The state

  class MatrixState {
    var lines: seq<MatrixLine>
    var w: nat
    var h: nat
    var textMask: set<Pos>
    var lastSec: int

    /** One line per column, each at rest on the screen. */
    ghost predicate Valid()
      reads this
    {
      |lines| == w && LinesOk(lines, h)
    }

    /** MatrixState(): no lines, size 0 x 0, no mask, no second seen. */
    constructor ()
      ensures Valid() && lines == [] && w == 0 && h == 0 && textMask == {} && lastSec == -1
    {
      lines := [];
      w := 0;
      h := 0;
      textMask := {};
      lastSec := -1;
    }

    predicate NeedsReset(width: nat, height: nat)
      reads this
    {
      w != width || h != height
    }

    /** The lines a frame starts from: new ones after a size change. */
    function StartLines(width: nat, height: nat, spawn: seq<LineDraw>): seq<MatrixLine>
      requires NeedsReset(width, height) ==> forall i :: 0 <= i < |spawn| ==> LineDrawOk(spawn[i], height)
      reads this
    {
      if NeedsReset(width, height) then NewLines(spawn, height) else lines
    }

    /** The mask a frame draws with: rebuilt when the second changed, with
        the text centred horizontally by its width and vertically by the
        font's 7 rows. */
    function NextMask(width: nat, height: nat, sec: int, timeStr: string, font: Font, textW: int): set<Pos>
      requires sec != lastSec ==> ClockMask.Readable(timeStr, font)
      reads this
    {
      if sec != lastSec then ClockMask.MaskSet(timeStr, font, FloorHalf(width - textW), FloorHalf(height - 7))
      else textMask
    }

    /** render: new lines on a size change, a new mask on a new second,
        then every line updated and drawn. Returns the engine's rotation
        pair. */
    method Render(buffer: Screen.ScreenBuffer, width: nat, height: nat, sec: int, timeStr: string, font: Font, textW: int,
                  spawn: seq<LineDraw>, heads: seq<int>, resets: seq<LineDraw>, tailCode: (int, int) -> int,
                  accent: string, gradient: seq<string>)
      returns (rot: (int, int))
      requires Valid() && buffer.Valid() && |gradient| > 0
      requires NeedsReset(width, height) ==> |spawn| == width && forall i :: 0 <= i < |spawn| ==> LineDrawOk(spawn[i], height)
      requires sec != lastSec ==> ClockMask.Readable(timeStr, font)
      requires |heads| == width && |resets| == width
      requires (forall i :: 0 <= i < width ==> CodeOk(heads[i]) && LineDrawOk(resets[i], height)) && TailCodesOk(tailCode)
      modifies this, buffer
      ensures Valid() && buffer.Valid() && w == width && h == height && lastSec == sec
      ensures textMask == old(NextMask(width, height, sec, timeStr, font, textW))
      ensures lines == StepAll(old(StartLines(width, height, spawn)), height, heads, resets)
      ensures buffer.cells == Plot(old(buffer.cells), buffer.width, buffer.height,
                                   FrameWrites(lines, height, width, textMask, accent, gradient, tailCode))
      ensures rot == (-15, 12)
    {
      if NeedsReset(width, height) {
        w := width;
        h := height;
        lines := NewLines(spawn, height);
      }
      if sec != lastSec {
        lastSec := sec;
        textMask := ClockMask.BuildMask(timeStr, font, FloorHalf(width - textW), FloorHalf(height - 7));
      }
      lines := StepAndDraw(buffer, lines, height, heads, resets, textMask, accent, gradient, tailCode);
      rot := (-15, 12);
    }
  }
}
