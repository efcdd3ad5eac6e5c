/** ScreenBuffer of engine.py: the mutable frame the animations draw into.
    Each method is proved to leave the grid exactly as the matching
    function of module Surface describes. */
module Screen {
  import opened Common
  import opened Surface

  class ScreenBuffer {
    const width: nat
    const height: nat
    var cells: Grid

    ghost predicate Valid()
      reads this
    {
      IsGrid(cells, width, height)
    }

    /** A new buffer: every cell blank, at infinite depth, uncoloured and
        at intensity 0. */
    constructor (width: nat, height: nat)
      ensures Valid() && this.width == width && this.height == height
      ensures cells == BlankGrid(width, height)
    {
      this.width := width;
      this.height := height;
      cells := BlankGrid(width, height);
    }

    /** clear: resets every cell, row by row. */
    method Clear()
      requires Valid()
      modifies this
      ensures Valid() && cells == BlankGrid(width, height)
    {
      for y := 0 to height
        invariant IsGrid(cells, width, height)
        invariant forall j, i :: 0 <= j < y && 0 <= i < width ==> cells[j][i] == Blank
      {
        for x := 0 to width
          invariant IsGrid(cells, width, height)
          invariant forall j, i :: 0 <= j < y && 0 <= i < width ==> cells[j][i] == Blank
          invariant forall i :: 0 <= i < x ==> cells[y][i] == Blank
        {
          PutCells(cells, width, height, x, y, Blank);
          cells := Put(cells, x, y, Blank);
        }
      }
      SameGrid(cells, BlankGrid(width, height), width, height);
    }

    /** set_pixel; the result says whether the write passed the bounds
        check and the depth test. */
    method SetPixel(x: real, y: real, glyph: string, z: real, color: Option<string>, intensity: real)
      returns (drawn: bool)
      requires Valid()
      modifies this
      ensures Valid()
      ensures (cells, drawn) == Surface.SetPixel(old(cells), width, height, Write(Trunc(x), Trunc(y), glyph, z, color, intensity))
    {
      drawn := SetPixelAt(Trunc(x), Trunc(y), glyph, z, color, intensity);
    }

    /** set_pixel once int() has been applied to the coordinates; the
        drawing methods below call set_pixel with integers already, for
        which int() changes nothing. */
    method SetPixelAt(x: int, y: int, glyph: string, z: real, color: Option<string>, intensity: real)
      returns (drawn: bool)
      requires Valid()
      modifies this
      ensures Valid()
      ensures (cells, drawn) == Surface.SetPixel(old(cells), width, height, Write(x, y, glyph, z, color, intensity))
    {
      if x < 0 || x >= width || y < 0 || y >= height {
        return false;
      }
      if Nearer(z, cells[y][x].depth) {
        PutCells(cells, width, height, x, y, Cell(glyph, Fin(z), color, intensity));
        cells := Put(cells, x, y, Cell(glyph, Fin(z), color, intensity));
        return true;
      }
      return false;
    }

    /** set_pixel_with_glow: the centre at full intensity, then the halo
        cell by cell in the order the two loops visit it. */
    method SetPixelWithGlow(x: real, y: real, glyph: string, z: real, color: Option<string>,
                            radius: int, hasThemeManager: bool)
      requires Valid()
      modifies this
      ensures Valid()
      ensures cells == Surface.SetPixelWithGlow(old(cells), width, height, x, y, glyph, z, color, radius, hasThemeManager)
    {
      var cx, cy := Trunc(x), Trunc(y);
      var _ := SetPixelAt(cx, cy, glyph, z, color, 1.0);
      if radius <= 0 || !hasThemeManager {
        return;
      }
      cells := GlowHalo(cells, width, height, cx, cy, radius, z, color);
    }

    /** draw_line: int() on the four coordinates, then Bresenham's loop. */
    method DrawLine(x1: real, y1: real, x2: real, y2: real, glyph: string, z: real, color: Option<string>)
      requires Valid()
      modifies this
      ensures Valid()
      ensures cells == Plot(old(cells), width, height, LineWrites(x1, y1, x2, y2, glyph, z, color))
    {
      DrawLineAt(Trunc(x1), Trunc(y1), Trunc(x2), Trunc(y2), glyph, z, color);
    }

    /** Bresenham's loop of draw_line, plotting each cell as it goes. */
    method DrawLineAt(x1: int, y1: int, x2: int, y2: int, glyph: string, z: real, color: Option<string>)
      requires Valid()
      modifies this
      ensures Valid()
      ensures cells == Plot(old(cells), width, height, PointWrites(Line(x1, y1, x2, y2), glyph, z, color))
    {
      var x, y := x1, y1;
      var dx: int, dy: int := Abs(x2 - x1), Abs(y2 - y1);
      var sx := if x1 < x2 then 1 else -1;
      var sy := if y1 < y2 then 1 else -1;
      var err: int := dx - dy;
      LineStart(x1, y1, x2, y2);
      ghost var c0 := cells;
      ghost var all := Line(x1, y1, x2, y2);
      ghost var done: seq<Pos> := [];
      var _ := SetPixelAt(x, y, glyph, z, color, 1.0);
      while !(x == x2 && y == y2)
        invariant LineInv(x, y, x2, y2, dx, dy, sx, sy, err)
        invariant all == done + Trace(x, y, x2, y2, dx, dy, sx, sy, err)
        invariant IsGrid(cells, width, height)
        invariant cells == Plot(c0, width, height, PointWrites(done + [(x, y)], glyph, z, color))
        decreases Remaining(x, x2, sx) + Remaining(y, y2, sy)
      {
        ghost var prev := (x, y);
        ghost var next := LineStep(x, y, dx, dy, sx, sy, err);
        TracePass(all, done, x, y, x2, y2, dx, dy, sx, sy, err);
        var e2 := 2 * err;
        if e2 > -dy {
          err := err - dy;
          x := x + sx;
        }
        if e2 < dx {
          err := err + dx;
          y := y + sy;
        }
        assert x == next.0 && y == next.1 && err == next.2;
        done := done + [prev];
        var _ := SetPixelAt(x, y, glyph, z, color, 1.0);
        PlotPointsSnoc(c0, width, height, done, (x, y), glyph, z, color);
      }
      assert all == done + [(x, y)];
    }

    /** draw_thick_line: the base line, then the shifted copies 0.01
        behind it. */
    method DrawThickLine(x1: real, y1: real, x2: real, y2: real, glyph: string, z: real,
                         color: Option<string>, thickness: int)
      requires Valid()
      modifies this
      ensures Valid()
      ensures cells == Plot(old(cells), width, height, ThickLineWrites(x1, y1, x2, y2, glyph, z, color, thickness))
    {
      ghost var c0 := cells;
      var z' := z + 0.01;
      ghost var base := LineWrites(x1, y1, x2, y2, glyph, z, color);
      ghost var right := LineWrites(x1 + 1.0, y1, x2 + 1.0, y2, glyph, z', color);
      ghost var down := LineWrites(x1, y1 + 1.0, x2, y2 + 1.0, glyph, z', color);
      ghost var diag := LineWrites(x1 + 1.0, y1 + 1.0, x2 + 1.0, y2 + 1.0, glyph, z', color);
      ThickLineParts(x1, y1, x2, y2, glyph, z, color, thickness);
      DrawLine(x1, y1, x2, y2, glyph, z, color);
      ghost var c1 := cells;
      assert c1 == Plot(c0, width, height, base);
      if thickness > 1 {
        DrawLine(x1 + 1.0, y1, x2 + 1.0, y2, glyph, z', color);
        ghost var c2 := cells;
        assert c2 == Plot(c1, width, height, right);
        PlotAppend(c0, width, height, base, right);
        if thickness > 2 {
          DrawLine(x1, y1 + 1.0, x2, y2 + 1.0, glyph, z', color);
          ghost var c3 := cells;
          assert c3 == Plot(c2, width, height, down);
          DrawLine(x1 + 1.0, y1 + 1.0, x2 + 1.0, y2 + 1.0, glyph, z', color);
          assert cells == Plot(c3, width, height, diag);
          PlotAppend(c0, width, height, base + right, down);
          PlotAppend(c0, width, height, base + right + down, diag);
        }
      }
    }

    /** draw_line_subpixel: steps + 1 samples along the segment, each drawn
        as an upper or lower half block; SubpixelWrite computes one sample's
        cell and glyph as the loop body does. */
    method DrawLineSubpixel(x1: real, y1: real, x2: real, y2: real, z: real, color: Option<string>)
      requires Valid()
      modifies this
      ensures Valid()
      ensures cells == Plot(old(cells), width, height, SubpixelWrites(x1, y1, x2, y2, z, color))
    {
      ghost var c0 := cells;
      ghost var ws := SubpixelWrites(x1, y1, x2, y2, z, color);
      var len := MaxReal(AbsReal(x2 - x1), AbsReal(y2 - y1));
      if len < 1.0 {
        len := 1.0;
      }
      var steps := Trunc(len * 2.0);
      assert steps == SubpixelSteps(x1, y1, x2, y2);
      for i := 0 to steps + 1
        invariant IsGrid(cells, width, height)
        invariant cells == Plot(c0, width, height, ws[..i])
      {
        var w := SubpixelWrite(x1, y1, x2, y2, steps, z, color, i);
        SubpixelPass(c0, cells, width, height, x1, y1, x2, y2, z, color, steps, i);
        var _ := SetPixelAt(w.x, w.y, w.glyph, z, color, 1.0);
      }
      assert ws[..steps + 1] == ws;
    }

    /** render: each row's glyphs with a colour code where the colour
        changes, RESET where it drops to none and at the end of a row with
        a colour still open; rows joined by newlines. */
    method Render() returns (s: string)
      requires Valid()
      ensures s == RenderText(cells)
    {
      var lines: seq<string> := [];
      for y := 0 to height
        invariant |lines| == y
        invariant forall j :: 0 <= j < y ==> lines[j] == RowText(cells[j])
      {
        var line := RenderRow(cells[y]);
        lines := lines + [line];
      }
      s := JoinLines(lines);
      ghost var g := cells;
      assert lines == seq(|g|, y requires 0 <= y < |g| => RowText(g[y]));
    }
  }

  /** One row of render: the glyphs with a colour code where the colour
      changes, RESET where it drops to none and at the end of the row
      with a colour still open. */
  method RenderRow(row: seq<Cell>) returns (line: string)
    ensures line == RowText(row)
  {
    line := "";
    var current: Option<string> := None;
    for x := 0 to |row|
      invariant line == PartsText(PartsUpTo(row, x))
      invariant current == PrevColor(row, x)
    {
      var color := row[x].color;
      RenderCell(row, x);
      if color != current {
        if Truthy(color) {
          line := line + color.value;
        } else if Truthy(current) {
          line := line + Colors.Reset;
        }
        current := color;
      }
      line := line + row[x].glyph;
    }
    RenderRowEnd(row);
    if Truthy(current) {
      line := line + Colors.Reset;
    }
  }

  /** A cell while the halo loops run: its glow is applied once the loops
      have passed its offset (row offsets before dy, or row dy and column
      offsets before dx). */
  ghost function HaloSoFar(main: Grid, width: nat, height: nat, cx: int, cy: int, radius: int, z: real,
                           color: Option<string>, dy: int, dx: int, i: int, j: int): Cell
    requires IsGrid(main, width, height) && 0 <= j < height && 0 <= i < width
  {
    if InHalo(width, height, cx, cy, radius, i, j) && (j - cy < dy || (j - cy == dy && i - cx < dx))
    then GlowCell(main[j][i], GlowIntensity(Dist2(cx, cy, i, j)), z, color)
    else main[j][i]
  }

  /** The two halo loops of set_pixel_with_glow over the grid main, in
      which the centre has already been drawn. */
  method GlowHalo(main: Grid, width: nat, height: nat, cx: int, cy: int, radius: int, z: real,
                  color: Option<string>) returns (g: Grid)
    requires IsGrid(main, width, height) && radius > 0
    ensures g == Glow(main, width, height, cx, cy, radius, z, color)
  {
    g := main;
    var dy := -radius;
    while dy <= radius
      invariant -radius <= dy <= radius + 1
      invariant IsGrid(g, width, height)
      invariant forall j, i :: 0 <= j < height && 0 <= i < width ==>
        g[j][i] == HaloSoFar(main, width, height, cx, cy, radius, z, color, dy, -radius, i, j)
    {
      g := GlowRow(main, g, width, height, cx, cy, radius, z, color, dy);
      dy := dy + 1;
    }
    SameGrid(g, Glow(main, width, height, cx, cy, radius, z, color), width, height);
  }

  /** The inner loop of the halo: offsets dx = -radius .. radius of row
      offset dy. */
  method GlowRow(main: Grid, g0: Grid, width: nat, height: nat, cx: int, cy: int, radius: int, z: real,
                 color: Option<string>, dy: int) returns (g: Grid)
    requires IsGrid(main, width, height) && IsGrid(g0, width, height) && -radius <= dy <= radius
    requires forall j, i :: 0 <= j < height && 0 <= i < width ==>
      g0[j][i] == HaloSoFar(main, width, height, cx, cy, radius, z, color, dy, -radius, i, j)
    ensures IsGrid(g, width, height)
    ensures forall j, i :: 0 <= j < height && 0 <= i < width ==>
      g[j][i] == HaloSoFar(main, width, height, cx, cy, radius, z, color, dy + 1, -radius, i, j)
  {
    g := g0;
    var dx := -radius;
    while dx <= radius
      invariant -radius <= dx <= radius + 1
      invariant IsGrid(g, width, height)
      invariant forall j, i :: 0 <= j < height && 0 <= i < width ==>
        g[j][i] == HaloSoFar(main, width, height, cx, cy, radius, z, color, dy, dx, i, j)
    {
      var gx, gy := cx + dx, cy + dy;
      if (dx != 0 || dy != 0) && 0 <= gx < width && 0 <= gy < height && dx * dx + dy * dy <= radius * radius {
        var gi := GlowIntensity(Dist2(cx, cy, gx, gy));
        if g[gy][gx].glyph == " " || g[gy][gx].intensity < gi {
          PutCells(g, width, height, gx, gy, Cell(GlowGlyph(gi), Fin(z + 0.1), color, gi));
          g := Put(g, gx, gy, Cell(GlowGlyph(gi), Fin(z + 0.1), color, gi));
        }
      }
      dx := dx + 1;
    }
  }

  /** The writes of a thick line, split into its separate lines. */
  lemma ThickLineParts(x1: real, y1: real, x2: real, y2: real, glyph: string, z: real,
                       color: Option<string>, thickness: int)
    ensures var base := LineWrites(x1, y1, x2, y2, glyph, z, color);
      var right := LineWrites(x1 + 1.0, y1, x2 + 1.0, y2, glyph, z + 0.01, color);
      var down := LineWrites(x1, y1 + 1.0, x2, y2 + 1.0, glyph, z + 0.01, color);
      var diag := LineWrites(x1 + 1.0, y1 + 1.0, x2 + 1.0, y2 + 1.0, glyph, z + 0.01, color);
      ThickLineWrites(x1, y1, x2, y2, glyph, z, color, thickness)
        == if thickness <= 1 then base
           else if thickness == 2 then base + right
           else base + right + down + diag
  {
    var base := LineWrites(x1, y1, x2, y2, glyph, z, color);
    var right := LineWrites(x1 + 1.0, y1, x2 + 1.0, y2, glyph, z + 0.01, color);
    var down := LineWrites(x1, y1 + 1.0, x2, y2 + 1.0, glyph, z + 0.01, color);
    var diag := LineWrites(x1 + 1.0, y1 + 1.0, x2 + 1.0, y2 + 1.0, glyph, z + 0.01, color);
    assert base + [] + [] == base;
    assert base + right + [] == base + right;
    assert base + right + (down + diag) == base + right + down + diag;
  }

  lemma PlotPointsSnoc(g: Grid, width: nat, height: nat, ps: seq<Pos>, p: Pos, glyph: string, z: real,
                       color: Option<string>)
    requires IsGrid(g, width, height)
    ensures Plot(g, width, height, PointWrites(ps + [p], glyph, z, color))
         == Surface.SetPixel(Plot(g, width, height, PointWrites(ps, glyph, z, color)), width, height,
                             Write(p.0, p.1, glyph, z, color, 1.0)).0
  {
    assert (ps + [p])[..|ps|] == ps;
  }

  /** One pass of draw_line's loop keeps its ghost bookkeeping: the cells
      already plotted followed by the rest of the trace are the whole line. */
  lemma TracePass(all: seq<Pos>, done: seq<Pos>, x: int, y: int, x2: int, y2: int,
                  dx: int, dy: int, sx: int, sy: int, err: int)
    requires LineInv(x, y, x2, y2, dx, dy, sx, sy, err)
    requires x != x2 || y != y2
    requires all == done + Trace(x, y, x2, y2, dx, dy, sx, sy, err)
    ensures var n := LineStep(x, y, dx, dy, sx, sy, err);
      && LineInv(n.0, n.1, x2, y2, dx, dy, sx, sy, n.2)
      && Remaining(n.0, x2, sx) + Remaining(n.1, y2, sy) < Remaining(x, x2, sx) + Remaining(y, y2, sy)
      && all == (done + [(x, y)]) + Trace(n.0, n.1, x2, y2, dx, dy, sx, sy, n.2)
  {
    LineStepProgress(x, y, x2, y2, dx, dy, sx, sy, err);
    TraceStep(x, y, x2, y2, dx, dy, sx, sy, err);
    var n := LineStep(x, y, dx, dy, sx, sy, err);
    assert done + ([(x, y)] + Trace(n.0, n.1, x2, y2, dx, dy, sx, sy, n.2))
        == (done + [(x, y)]) + Trace(n.0, n.1, x2, y2, dx, dy, sx, sy, n.2);
  }

  /** One pass of draw_line_subpixel's loop: the i-th write extends the
      line drawn so far. */
  lemma SubpixelPass(c0: Grid, cells: Grid, width: nat, height: nat, x1: real, y1: real, x2: real, y2: real,
                     z: real, color: Option<string>, steps: nat, i: nat)
    requires IsGrid(c0, width, height)
    requires steps == SubpixelSteps(x1, y1, x2, y2) && i <= steps
    requires cells == Plot(c0, width, height, SubpixelWrites(x1, y1, x2, y2, z, color)[..i])
    ensures Plot(c0, width, height, SubpixelWrites(x1, y1, x2, y2, z, color)[..i + 1])
         == Surface.SetPixel(cells, width, height, SubpixelWrite(x1, y1, x2, y2, steps, z, color, i)).0
  {
    var ws := SubpixelWrites(x1, y1, x2, y2, z, color);
    assert ws[..i + 1][..i] == ws[..i];
  }

  /** Two grids of the same shape that agree cell by cell are equal. */
  lemma SameGrid(a: Grid, b: Grid, width: nat, height: nat)
    requires IsGrid(a, width, height) && IsGrid(b, width, height)
    requires forall y, x :: 0 <= y < height && 0 <= x < width ==> a[y][x] == b[y][x]
    ensures a == b
  {
    forall y | 0 <= y < height
      ensures a[y] == b[y]
    {
    }
  }

  /** The text render adds for cell x of a row: a colour code or RESET
      where the colour changes, then the glyph. */
  lemma RenderCell(row: seq<Cell>, x: nat)
    requires x < |row|
    ensures var prev, c := PrevColor(row, x), row[x];
      PartsText(PartsUpTo(row, x + 1))
        == if c.color != prev && Truthy(c.color) then PartsText(PartsUpTo(row, x)) + c.color.value + c.glyph
           else if c.color != prev && Truthy(prev) then PartsText(PartsUpTo(row, x)) + Colors.Reset + c.glyph
           else PartsText(PartsUpTo(row, x)) + c.glyph
  {
    var prev, c := PrevColor(row, x), row[x];
    assert PartsUpTo(row, x + 1) == PartsUpTo(row, x) + CellParts(prev, c);
    CellPartsText(prev, c);
    PartsTextAppend(PartsUpTo(row, x), CellParts(prev, c));
    var t := PartsText(PartsUpTo(row, x));
    var code := if c.color != prev then
        (if Truthy(c.color) then c.color.value else if Truthy(prev) then Colors.Reset else "")
      else "";
    assert PartsText(PartsUpTo(row, x + 1)) == t + (code + c.glyph);
    assert t + (code + c.glyph) == t + code + c.glyph;
    assert code == "" ==> t + code == t;
  }

  /** A row's text: the text of its cells, then RESET if a colour is
      still open. */
  lemma RenderRowEnd(row: seq<Cell>)
    ensures RowText(row) == if Truthy(PrevColor(row, |row|)) then PartsText(PartsUpTo(row, |row|)) + Colors.Reset
                            else PartsText(PartsUpTo(row, |row|))
  {
    var tail: seq<Part> := if Truthy(PrevColor(row, |row|)) then [ResetCode] else [];
    PartsTextAppend(PartsUpTo(row, |row|), tail);
    PartsTextOne(ResetCode);
    assert PartsText([]) == "";
    assert PartsText(PartsUpTo(row, |row|)) + "" == PartsText(PartsUpTo(row, |row|));
  }

  lemma {:induction false} PartsTextAppend(a: seq<Part>, b: seq<Part>)
    ensures PartsText(a + b) == PartsText(a) + PartsText(b)
    decreases |b|
  {
    if b == [] {
      assert a + b == a;
    } else {
      assert (a + b)[..|a + b| - 1] == a + b[..|b| - 1];
      PartsTextAppend(a, b[..|b| - 1]);
    }
  }

  /** The text one cell adds: a colour code when the colour changes to a
      truthy one, RESET when it changes from a truthy one to a falsy one,
      then the glyph. */
  lemma CellPartsText(prev: Option<string>, c: Cell)
    ensures PartsText(CellParts(prev, c))
         == (if c.color != prev then
               (if Truthy(c.color) then c.color.value else if Truthy(prev) then Colors.Reset else "")
             else "") + c.glyph
  {
    var g := Glyph(c.glyph);
    var cp := CellParts(prev, c);
    var codes := cp[..|cp| - 1];
    assert cp == codes + [g];
    PartsTextAppend(codes, [g]);
    PartsTextOne(g);
    if codes != [] {
      PartsTextOne(codes[0]);
      assert codes == [codes[0]];
    }
  }

  lemma PartsTextOne(p: Part)
    ensures PartsText([p]) == PartText(p)
  {
    assert [p][..0] == [];
  }

  /** The loop `for pos, w in d.items(): buffer.set_pixel(...)` over a
      dictionary whose writes land on their own keys. */
  method PaintAll(buffer: ScreenBuffer, ws: map<Pos, Write>)
    requires buffer.Valid() && AtKeys(ws)
    modifies buffer
    ensures buffer.Valid()
    ensures buffer.cells == Paint(old(buffer.cells), buffer.width, buffer.height, ws)
  {
    ghost var c0 := buffer.cells;
    var todo := ws.Keys;
    PaintNothing(c0, buffer.width, buffer.height, ws);
    assert ws.Keys - todo == {};
    while todo != {}
      invariant buffer.Valid()
      invariant todo <= ws.Keys
      invariant buffer.cells == PaintKeys(c0, buffer.width, buffer.height, ws, ws.Keys - todo)
      decreases |todo|
    {
      var p :| p in todo;
      ghost var done := ws.Keys - todo;
      PaintStep(c0, buffer.width, buffer.height, ws, done, p);
      var w := ws[p];
      assert w == Write(w.x, w.y, w.glyph, w.z, w.color, w.intensity);
      var _ := buffer.SetPixelAt(w.x, w.y, w.glyph, w.z, w.color, w.intensity);
      todo := todo - {p};
      assert ws.Keys - todo == done + {p};
    }
    assert ws.Keys - todo == ws.Keys;
  }
}
