/** The compositing surface of engine.py as values: a grid of cells, each
    holding the glyph, depth, colour and glow intensity that ScreenBuffer
    keeps in its four parallel 2D lists. The class in screen.dfy mutates a
    grid of these and is proved to compute the functions defined here. */
module Surface {
  import opened Common
  import Colors

  /** A z-buffer entry: float('inf') for an empty cell, or a finite depth.
      Lower is nearer to the camera. */
  datatype Depth = Inf | Fin(v: real)

  /** The depth test of set_pixel: z is strictly nearer than d. */
  predicate Nearer(z: real, d: Depth)
  {
    d.Inf? || z < d.v
  }

  /** Depth a is at a or nearer than depth b. */
  predicate DepthLe(a: Depth, b: Depth)
  {
    b.Inf? || (a.Fin? && a.v <= b.v)
  }

  /** The depth d is finite and at z or nearer. */
  predicate AtMost(d: Depth, z: real)
  {
    d.Fin? && d.v <= z
  }

  datatype Cell = Cell(glyph: string, depth: Depth, color: Option<string>, intensity: real)

  /** What __init__ and clear put in every cell. */
  const Blank: Cell := Cell(" ", Inf, None, 0.0)

  type Grid = seq<seq<Cell>>

  /** g has `height` rows of `width` cells. */
  predicate IsGrid(g: Grid, width: nat, height: nat)
  {
    |g| == height && forall y :: 0 <= y < height ==> |g[y]| == width
  }

  function BlankGrid(width: nat, height: nat): (g: Grid)
    ensures IsGrid(g, width, height)
    ensures forall y, x :: 0 <= y < height && 0 <= x < width ==> g[y][x] == Blank
  {
    seq(height, _ => seq(width, _ => Blank))
  }

  /** The grid with one cell replaced. */
  function Put(g: Grid, x: nat, y: nat, c: Cell): (r: Grid)
    requires y < |g| && x < |g[y]|
    ensures |r| == |g|
  {
    g[y := g[y][x := c]]
  }

  lemma PutCells(g: Grid, width: nat, height: nat, x: nat, y: nat, c: Cell)
    requires IsGrid(g, width, height) && y < height && x < width
    ensures IsGrid(Put(g, x, y, c), width, height)
    ensures Put(g, x, y, c)[y][x] == c
    ensures forall j, i :: 0 <= j < height && 0 <= i < width && (j != y || i != x) ==> Put(g, x, y, c)[j][i] == g[j][i]
  {
  }

  // ---------------------------------------------------------------------
  // set_pixel

  /** One call of set_pixel after its int() conversion of the
      coordinates: the cell, glyph, depth, colour and intensity. */
  datatype Write = Write(x: int, y: int, glyph: string, z: real, color: Option<string>, intensity: real)

  /** The write's cell is on the grid. */
  predicate Lands(width: nat, height: nat, wr: Write)
  {
    0 <= wr.x < width && 0 <= wr.y < height
  }

  /** The write lands at the cell (x, y). */
  predicate LandsAt(wr: Write, x: int, y: int)
  {
    wr.x == x && wr.y == y
  }

  /** set_pixel once the coordinates are integers: reject off-grid
      writes, then write glyph, depth, colour and intensity together when
      z is strictly nearer than the cell's depth. The flag is set_pixel's
      return value. */
  function SetPixel(g: Grid, width: nat, height: nat, wr: Write): (r: (Grid, bool))
    requires IsGrid(g, width, height)
    ensures IsGrid(r.0, width, height)
  {
    var x, y := wr.x, wr.y;
    if 0 <= x < width && 0 <= y < height && Nearer(wr.z, g[y][x].depth) then
      PutCells(g, width, height, x, y, Cell(wr.glyph, Fin(wr.z), wr.color, wr.intensity));
      (Put(g, x, y, Cell(wr.glyph, Fin(wr.z), wr.color, wr.intensity)), true)
    else
      (g, false)
  }

  /** What one set_pixel does: it reports success exactly when the
      truncated position is on the grid and z is strictly nearer than the
      cell's depth; on success that cell holds the new glyph, depth,
      colour and intensity together; no other cell changes; on failure
      nothing changes. */
  lemma SetPixelEffect(g: Grid, width: nat, height: nat, wr: Write)
    requires IsGrid(g, width, height)
    ensures var r := SetPixel(g, width, height, wr);
      && (r.1 <==> Lands(width, height, wr) && Nearer(wr.z, g[wr.y][wr.x].depth))
      && (r.1 ==> r.0[wr.y][wr.x] == Cell(wr.glyph, Fin(wr.z), wr.color, wr.intensity))
      && (forall y, x :: 0 <= y < height && 0 <= x < width && !LandsAt(wr, x, y) ==> r.0[y][x] == g[y][x])
      && (!r.1 ==> r.0 == g)
  {
  }

  /** The depth-test invariant of one write: no cell's depth ever moves
      away from the camera. */
  lemma SetPixelDepthNeverIncreases(g: Grid, width: nat, height: nat, wr: Write)
    requires IsGrid(g, width, height)
    ensures forall y, x :: 0 <= y < height && 0 <= x < width ==>
      DepthLe(SetPixel(g, width, height, wr).0[y][x].depth, g[y][x].depth)
  {
    SetPixelEffect(g, width, height, wr);
  }

  /** Equal depth fails the test: the first of two writes at the same
      depth to the same cell wins. */
  lemma FirstWriteWinsTie(g: Grid, width: nat, height: nat, a: Write, b: Write)
    requires IsGrid(g, width, height)
    requires Lands(width, height, a) && Nearer(a.z, g[a.y][a.x].depth)
    requires LandsAt(b, a.x, a.y) && b.z == a.z
    ensures !SetPixel(SetPixel(g, width, height, a).0, width, height, b).1
    ensures SetPixel(SetPixel(g, width, height, a).0, width, height, b).0 == SetPixel(g, width, height, a).0
  {
    SetPixelEffect(g, width, height, a);
    SetPixelEffect(SetPixel(g, width, height, a).0, width, height, b);
  }

  /** Writes at distinct depths commute: the z-buffer makes the final
      frame independent of drawing order. */
  lemma WritesCommute(g: Grid, width: nat, height: nat, a: Write, b: Write)
    requires IsGrid(g, width, height)
    requires a.z != b.z
    ensures SetPixel(SetPixel(g, width, height, a).0, width, height, b).0
         == SetPixel(SetPixel(g, width, height, b).0, width, height, a).0
  {
    var ab := SetPixel(SetPixel(g, width, height, a).0, width, height, b).0;
    var ba := SetPixel(SetPixel(g, width, height, b).0, width, height, a).0;
    SetPixelEffect(g, width, height, a);
    SetPixelEffect(g, width, height, b);
    SetPixelEffect(SetPixel(g, width, height, a).0, width, height, b);
    SetPixelEffect(SetPixel(g, width, height, b).0, width, height, a);
    assert IsGrid(ab, width, height) && IsGrid(ba, width, height);
    forall y | 0 <= y < height
      ensures ab[y] == ba[y]
    {
      forall x | 0 <= x < width
        ensures ab[y][x] == ba[y][x]
      {
      }
    }
  }

  /** set_pixel applied to a sequence of writes, in order. */
  function Plot(g: Grid, width: nat, height: nat, ws: seq<Write>): (r: Grid)
    requires IsGrid(g, width, height)
    ensures IsGrid(r, width, height)
    decreases |ws|
  {
    if ws == [] then g
    else SetPixel(Plot(g, width, height, ws[..|ws| - 1]), width, height, ws[|ws| - 1]).0
  }

  /** Drawing one more write is one more set_pixel on the result. */
  lemma PlotSnoc(g: Grid, width: nat, height: nat, ws: seq<Write>, w: Write)
    requires IsGrid(g, width, height)
    ensures Plot(g, width, height, ws + [w]) == SetPixel(Plot(g, width, height, ws), width, height, w).0
  {
    assert (ws + [w])[..|ws|] == ws;
  }

  /** Drawing a then b is drawing a, then drawing b on the result. */
  lemma {:induction false} PlotAppend(g: Grid, width: nat, height: nat, a: seq<Write>, b: seq<Write>)
    requires IsGrid(g, width, height)
    ensures Plot(g, width, height, a + b) == Plot(Plot(g, width, height, a), width, height, b)
    decreases |b|
  {
    if b != [] {
      assert (a + b)[..|a + b| - 1] == a + b[..|b| - 1];
      PlotAppend(g, width, height, a, b[..|b| - 1]);
    } else {
      assert a + b == a;
    }
  }

  /** Over any sequence of writes, no cell's depth moves away from the
      camera. */
  lemma {:induction false} PlotDepthNeverIncreases(g: Grid, width: nat, height: nat, ws: seq<Write>, x: nat, y: nat)
    requires IsGrid(g, width, height) && y < height && x < width
    ensures DepthLe(Plot(g, width, height, ws)[y][x].depth, g[y][x].depth)
    decreases |ws|
  {
    if ws != [] {
      PlotDepthNeverIncreases(g, width, height, ws[..|ws| - 1], x, y);
      SetPixelDepthNeverIncreases(Plot(g, width, height, ws[..|ws| - 1]), width, height, ws[|ws| - 1]);
    }
  }

  /** A cell already at depth z0 or nearer is left untouched by writes
      that are all at z0 or farther. */
  lemma {:induction false} PlotKeepsNearerCell(g: Grid, width: nat, height: nat, ws: seq<Write>, x: nat, y: nat, z0: real)
    requires IsGrid(g, width, height) && y < height && x < width
    requires AtMost(g[y][x].depth, z0)
    requires AllBehind(ws, z0)
    ensures Plot(g, width, height, ws)[y][x] == g[y][x]
    decreases |ws|
  {
    if ws != [] {
      PlotKeepsNearerCell(g, width, height, ws[..|ws| - 1], x, y, z0);
      SetPixelEffect(Plot(g, width, height, ws[..|ws| - 1]), width, height, ws[|ws| - 1]);
    }
  }

  /** After a sequence containing an on-grid write at depth z to (x, y),
      that cell is at depth z or nearer. */
  lemma {:induction false} PlotReachesDepth(g: Grid, width: nat, height: nat, ws: seq<Write>, k: nat, x: nat, y: nat)
    requires IsGrid(g, width, height) && y < height && x < width
    requires k < |ws| && LandsAt(ws[k], x, y)
    ensures AtMost(Plot(g, width, height, ws)[y][x].depth, ws[k].z)
    decreases |ws|
  {
    var pre := ws[..|ws| - 1];
    if k < |ws| - 1 {
      PlotReachesDepth(g, width, height, pre, k, x, y);
      SetPixelDepthNeverIncreases(Plot(g, width, height, pre), width, height, ws[|ws| - 1]);
    } else {
      SetPixelEffect(Plot(g, width, height, pre), width, height, ws[k]);
    }
  }

  // ---------------------------------------------------------------------
  // set_pixel_with_glow

  const GlowChars: string := ".:·"

  /** The neighbour (gx, gy) of the centre (cx, cy) is lit by a glow of
      the given radius: on the grid, not the centre, within the square the
      loops visit and within Euclidean distance radius. */
  predicate InHalo(width: nat, height: nat, cx: int, cy: int, radius: int, gx: int, gy: int)
  {
    0 <= gx < width && 0 <= gy < height && (gx != cx || gy != cy)
    && -radius <= gx - cx <= radius && -radius <= gy - cy <= radius
    && (gx - cx) * (gx - cx) + (gy - cy) * (gy - cy) <= radius * radius
  }

  /** The squared distance from the centre. */
  function Dist2(cx: int, cy: int, gx: int, gy: int): (d: nat)
    ensures (gx != cx || gy != cy) ==> d >= 1
  {
    (gx - cx) * (gx - cx) + (gy - cy) * (gy - cy)
  }

  /** 1 / (d^2 + 1). */
  function GlowIntensity(d2: nat): (i: real)
    ensures 0.0 < i <= 1.0
    ensures d2 >= 1 ==> i <= 0.5
  {
    1.0 / (d2 + 1) as real
  }

  /** glow_chars[min(2, int((1 - intensity) * 3))] */
  function GlowGlyph(intensity: real): (s: string)
    requires 0.0 < intensity <= 1.0
    ensures |s| == 1 && s[0] in GlowChars
  {
    TruncBounds((1.0 - intensity) * 3.0);
    [GlowChars[Min(2, Trunc((1.0 - intensity) * 3.0))]]
  }

  /** The glow of a neighbour: the orthogonal neighbours get ':', every
      farther one gets the dimmest '·'; the brightest glyph '.' is never
      chosen. */
  lemma GlowGlyphByDistance(d2: nat)
    requires d2 >= 1
    ensures d2 == 1 ==> GlowGlyph(GlowIntensity(d2)) == ":"
    ensures d2 >= 2 ==> GlowGlyph(GlowIntensity(d2)) == "·"
  {
    var i := GlowIntensity(d2);
    var n := (d2 + 1) as real;
    assert i * n == 1.0;
    if d2 == 1 {
      assert i == 0.5;
      assert (1.0 - i) * 3.0 == 1.5;
    } else {
      assert i <= 1.0 / 3.0 by {
        assert n >= 3.0;
        assert i * 3.0 <= i * n;
      }
      assert (1.0 - i) * 3.0 >= 2.0;
    }
  }

  /** A halo cell is taken over when it is blank or dimmer than the glow;
      it then gets depth z + 0.1 without any depth test. */
  function GlowCell(c: Cell, intensity: real, z: real, color: Option<string>): Cell
    requires 0.0 < intensity <= 1.0
  {
    if c.glyph == " " || c.intensity < intensity then
      Cell(GlowGlyph(intensity), Fin(z + 0.1), color, intensity)
    else c
  }

  /** The halo loops of set_pixel_with_glow, applied to grid g. */
  function Glow(g: Grid, width: nat, height: nat, cx: int, cy: int, radius: int, z: real, color: Option<string>): (r: Grid)
    requires IsGrid(g, width, height)
    ensures IsGrid(r, width, height)
  {
    seq(height, y requires 0 <= y < height =>
      seq(width, x requires 0 <= x < width =>
        if InHalo(width, height, cx, cy, radius, x, y)
        then GlowCell(g[y][x], GlowIntensity(Dist2(cx, cy, x, y)), z, color)
        else g[y][x]))
  }

  /** set_pixel_with_glow: the centre at intensity 1.0, then the halo unless
      the radius is not positive or no theme manager was given. */
  function SetPixelWithGlow(g: Grid, width: nat, height: nat, x: real, y: real, glyph: string, z: real,
                            color: Option<string>, radius: int, hasThemeManager: bool): (r: Grid)
    requires IsGrid(g, width, height)
    ensures IsGrid(r, width, height)
  {
    var cx, cy := Trunc(x), Trunc(y);
    var main := SetPixel(g, width, height, Write(cx, cy, glyph, z, color, 1.0)).0;
    if radius <= 0 || !hasThemeManager then main
    else Glow(main, width, height, cx, cy, radius, z, color)
  }

  /** What the glow promises about every cell: outside the halo nothing
      changes; inside it a drawn cell never gets dimmer, a replaced cell
      gets intensity 1/(d^2+1) <= 0.5 and depth z + 0.1, and the glyph is
      ':' next to the centre and '·' farther out. */
  lemma GlowEffect(g: Grid, width: nat, height: nat, cx: int, cy: int, radius: int, z: real,
                   color: Option<string>, x: nat, y: nat)
    requires IsGrid(g, width, height) && x < width && y < height
    ensures var r := Glow(g, width, height, cx, cy, radius, z, color)[y][x];
      && (!InHalo(width, height, cx, cy, radius, x, y) ==> r == g[y][x])
      && (g[y][x].glyph != " " ==> r.intensity >= g[y][x].intensity)
      && (r != g[y][x] ==>
            && r.intensity == GlowIntensity(Dist2(cx, cy, x, y)) <= 0.5
            && r.depth == Fin(z + 0.1) && r.color == color
            && (Dist2(cx, cy, x, y) == 1 ==> r.glyph == ":")
            && (Dist2(cx, cy, x, y) >= 2 ==> r.glyph == "·"))
  {
    if InHalo(width, height, cx, cy, radius, x, y) {
      GlowGlyphByDistance(Dist2(cx, cy, x, y));
    }
  }

  // ---------------------------------------------------------------------
  // draw_line: Bresenham's algorithm over all octants

  /** Steps still to go from p to p2 in direction s (s is 1 or -1). */
  function Remaining(p: int, p2: int, s: int): int
  {
    if s == 1 then p2 - p else p - p2
  }

  /** The loop invariant of draw_line: a and b, the steps still to go in
      x and in y, lie within [0, dx] and [0, dy], and err is tied to them. */
  predicate LineInv(x: int, y: int, x2: int, y2: int, dx: int, dy: int, sx: int, sy: int, err: int)
  {
    && dx >= 0 && dy >= 0 && (sx == 1 || sx == -1) && (sy == 1 || sy == -1)
    && 0 <= Remaining(x, x2, sx) <= dx && 0 <= Remaining(y, y2, sy) <= dy
    && err == dx - dy + dy * Remaining(x, x2, sx) - dx * Remaining(y, y2, sy)
  }

  /** One pass of the loop body after the point is plotted: the new x, y
      and err. */
  function LineStep(x: int, y: int, dx: int, dy: int, sx: int, sy: int, err: int): (int, int, int)
  {
    var e2 := 2 * err;
    var x' := if e2 > -dy then x + sx else x;
    var err1 := if e2 > -dy then err - dy else err;
    var y' := if e2 < dx then y + sy else y;
    var err2 := if e2 < dx then err1 + dx else err1;
    (x', y', err2)
  }

  lemma MulAtLeast(m: int, k: int)
    requires m >= 0 && k >= 1
    ensures m * k >= m
  {
    assert m * k == m + m * (k - 1);
  }

  /** When x is already at x2 the loop never steps in x, and when y is at
      y2 it never steps in y: the line cannot overshoot its end point. */
  lemma LineNoOvershoot(x: int, y: int, x2: int, y2: int, dx: int, dy: int, sx: int, sy: int, err: int)
    requires LineInv(x, y, x2, y2, dx, dy, sx, sy, err)
    requires x != x2 || y != y2
    ensures Remaining(x, x2, sx) == 0 ==> 2 * err <= -dy && 2 * err < dx
    ensures Remaining(y, y2, sy) == 0 ==> 2 * err >= dx && 2 * err > -dy
  {
    var a, b := Remaining(x, x2, sx), Remaining(y, y2, sy);
    if a == 0 {
      MulAtLeast(dx, b);
    }
    if b == 0 {
      MulAtLeast(dy, a);
    }
  }

  /** A step keeps the invariant, makes progress, and moves by at most one
      cell in each direction. */
  lemma LineStepProgress(x: int, y: int, x2: int, y2: int, dx: int, dy: int, sx: int, sy: int, err: int)
    requires LineInv(x, y, x2, y2, dx, dy, sx, sy, err)
    requires x != x2 || y != y2
    ensures var next := LineStep(x, y, dx, dy, sx, sy, err);
      var x', y', err' := next.0, next.1, next.2;
      && LineInv(x', y', x2, y2, dx, dy, sx, sy, err')
      && Remaining(x', x2, sx) + Remaining(y', y2, sy) < Remaining(x, x2, sx) + Remaining(y, y2, sy)
      && -1 <= x' - x <= 1 && -1 <= y' - y <= 1
      && (x' != x || y' != y)
  {
    LineNoOvershoot(x, y, x2, y2, dx, dy, sx, sy, err);
    LineStepKeepsErr(x, y, x2, y2, dx, dy, sx, sy, err);
  }

  /** The error term keeps its tie to the steps still to go. */
  lemma LineStepKeepsErr(x: int, y: int, x2: int, y2: int, dx: int, dy: int, sx: int, sy: int, err: int)
    requires LineInv(x, y, x2, y2, dx, dy, sx, sy, err)
    ensures var next := LineStep(x, y, dx, dy, sx, sy, err);
      next.2 == dx - dy + dy * Remaining(next.0, x2, sx) - dx * Remaining(next.1, y2, sy)
  {
    var a, b := Remaining(x, x2, sx), Remaining(y, y2, sy);
    var e2 := 2 * err;
    var stepX, stepY := e2 > -dy, e2 < dx;
    var next := LineStep(x, y, dx, dy, sx, sy, err);
    var a', b' := Remaining(next.0, x2, sx), Remaining(next.1, y2, sy);
    assert a' == (if stepX then a - 1 else a);
    assert b' == (if stepY then b - 1 else b);
    assert next.2 == err - (if stepX then dy else 0) + (if stepY then dx else 0);
    if stepX {
      MulPred(dy, a);
    }
    if stepY {
      MulPred(dx, b);
    }
  }

  lemma MulPred(d: int, a: int)
    ensures d * (a - 1) == d * a - d
  {
  }

  /** The cells draw_line visits from (x, y) on, in order. */
  function Trace(x: int, y: int, x2: int, y2: int, dx: int, dy: int, sx: int, sy: int, err: int): (t: seq<Pos>)
    requires LineInv(x, y, x2, y2, dx, dy, sx, sy, err)
    decreases Remaining(x, x2, sx) + Remaining(y, y2, sy)
  {
    if x == x2 && y == y2 then [(x, y)]
    else
      LineStepProgress(x, y, x2, y2, dx, dy, sx, sy, err);
      var next := LineStep(x, y, dx, dy, sx, sy, err);
      [(x, y)] + Trace(next.0, next.1, x2, y2, dx, dy, sx, sy, next.2)
  }

  /** One loop pass: the trace from the current point is that point
      followed by the trace from the next one. */
  lemma TraceStep(x: int, y: int, x2: int, y2: int, dx: int, dy: int, sx: int, sy: int, err: int)
    requires LineInv(x, y, x2, y2, dx, dy, sx, sy, err)
    requires x != x2 || y != y2
    ensures var n := LineStep(x, y, dx, dy, sx, sy, err);
      && LineInv(n.0, n.1, x2, y2, dx, dy, sx, sy, n.2)
      && Trace(x, y, x2, y2, dx, dy, sx, sy, err) == [(x, y)] + Trace(n.0, n.1, x2, y2, dx, dy, sx, sy, n.2)
  {
    LineStepProgress(x, y, x2, y2, dx, dy, sx, sy, err);
  }

  /** The traced cells run from the current point to the end point, one
      unit step at a time. */
  lemma {:induction false} TraceShape(x: int, y: int, x2: int, y2: int, dx: int, dy: int, sx: int, sy: int, err: int)
    requires LineInv(x, y, x2, y2, dx, dy, sx, sy, err)
    ensures var t := Trace(x, y, x2, y2, dx, dy, sx, sy, err);
      |t| >= 1 && t[0] == (x, y) && t[|t| - 1] == (x2, y2) && Adjacent(t)
    decreases Remaining(x, x2, sx) + Remaining(y, y2, sy)
  {
    if x != x2 || y != y2 {
      LineStepProgress(x, y, x2, y2, dx, dy, sx, sy, err);
      var next := LineStep(x, y, dx, dy, sx, sy, err);
      var rest := Trace(next.0, next.1, x2, y2, dx, dy, sx, sy, next.2);
      TraceShape(next.0, next.1, x2, y2, dx, dy, sx, sy, next.2);
      var t := [(x, y)] + rest;
      assert t == Trace(x, y, x2, y2, dx, dy, sx, sy, err);
      assert t[1..] == rest;
    }
  }

  /** Two consecutive cells of a line: distinct, and at most one cell
      apart in each direction. */
  predicate UnitStep(p: Pos, q: Pos)
  {
    -1 <= q.0 - p.0 <= 1 && -1 <= q.1 - p.1 <= 1 && p != q
  }

  /** Every two consecutive cells of t are a unit step apart. */
  predicate Adjacent(t: seq<Pos>)
  {
    |t| < 2 || (UnitStep(t[0], t[1]) && Adjacent(t[1..]))
  }

  /** Adjacent, stated index by index. */
  lemma {:induction false} AdjacentAt(t: seq<Pos>, i: nat)
    requires Adjacent(t) && i + 1 < |t|
    ensures UnitStep(t[i], t[i + 1])
  {
    if i > 0 {
      AdjacentAt(t[1..], i - 1);
    }
  }

  /** draw_line's starting values satisfy the loop invariant. */
  lemma LineStart(x1: int, y1: int, x2: int, y2: int)
    ensures LineInv(x1, y1, x2, y2, Abs(x2 - x1), Abs(y2 - y1),
                    if x1 < x2 then 1 else -1, if y1 < y2 then 1 else -1,
                    Abs(x2 - x1) - Abs(y2 - y1))
  {
    var dx: int, dy: int := Abs(x2 - x1), Abs(y2 - y1);
    assert Remaining(x1, x2, if x1 < x2 then 1 else -1) == dx;
    assert Remaining(y1, y2, if y1 < y2 then 1 else -1) == dy;
    assert dy * dx - dx * dy == 0;
  }

  /** The cells draw_line plots, from (x1, y1) to (x2, y2). */
  function Line(x1: int, y1: int, x2: int, y2: int): seq<Pos>
  {
    LineStart(x1, y1, x2, y2);
    var dx: int, dy: int := Abs(x2 - x1), Abs(y2 - y1);
    Trace(x1, y1, x2, y2, dx, dy, if x1 < x2 then 1 else -1, if y1 < y2 then 1 else -1, dx - dy)
  }

  /** draw_line plots (x1, y1) first and (x2, y2) last, and each cell is
      a unit step from the one before: the line terminates, starts and ends
      where it should, and has no gaps or repeated cells. */
  lemma LineShape(x1: int, y1: int, x2: int, y2: int)
    ensures var t := Line(x1, y1, x2, y2);
      |t| >= 1 && t[0] == (x1, y1) && t[|t| - 1] == (x2, y2)
      && forall i :: 0 <= i < |t| - 1 ==> UnitStep(t[i], t[i + 1])
  {
    LineStart(x1, y1, x2, y2);
    var dx: int, dy: int := Abs(x2 - x1), Abs(y2 - y1);
    var t := Line(x1, y1, x2, y2);
    TraceShape(x1, y1, x2, y2, dx, dy, if x1 < x2 then 1 else -1, if y1 < y2 then 1 else -1, dx - dy);
    forall i | 0 <= i < |t| - 1
      ensures UnitStep(t[i], t[i + 1])
    {
      AdjacentAt(t, i);
    }
  }

  /** The set_pixel calls made for a sequence of cells. */
  function PointWrites(ps: seq<Pos>, glyph: string, z: real, color: Option<string>): (ws: seq<Write>)
    ensures |ws| == |ps|
  {
    if ps == [] then []
    else PointWrites(ps[..|ps| - 1], glyph, z, color) + [Write(ps[|ps| - 1].0, ps[|ps| - 1].1, glyph, z, color, 1.0)]
  }

  /** The i-th write is a full-intensity set_pixel at the i-th cell. */
  lemma {:induction false} PointWritesAt(ps: seq<Pos>, glyph: string, z: real, color: Option<string>)
    ensures forall i :: 0 <= i < |ps| ==>
      PointWrites(ps, glyph, z, color)[i] == Write(ps[i].0, ps[i].1, glyph, z, color, 1.0)
    decreases |ps|
  {
    if ps != [] {
      PointWritesAt(ps[..|ps| - 1], glyph, z, color);
    }
  }

  /** draw_line: int() on the four coordinates, then one set_pixel per
      Bresenham cell at intensity 1.0. */
  function LineWrites(x1: real, y1: real, x2: real, y2: real, glyph: string, z: real, color: Option<string>): seq<Write>
  {
    PointWrites(Line(Trunc(x1), Trunc(y1), Trunc(x2), Trunc(y2)), glyph, z, color)
  }

  /** draw_thick_line: the base line, then for thickness > 1 a copy shifted
      right, and for thickness > 2 copies shifted down and diagonally; all
      copies at depth z + 0.01. */
  function ThickLineWrites(x1: real, y1: real, x2: real, y2: real, glyph: string, z: real,
                           color: Option<string>, thickness: int): seq<Write>
  {
    LineWrites(x1, y1, x2, y2, glyph, z, color)
    + (if thickness > 1 then LineWrites(x1 + 1.0, y1, x2 + 1.0, y2, glyph, z + 0.01, color) else [])
    + (if thickness > 2 then
         LineWrites(x1, y1 + 1.0, x2, y2 + 1.0, glyph, z + 0.01, color)
         + LineWrites(x1 + 1.0, y1 + 1.0, x2 + 1.0, y2 + 1.0, glyph, z + 0.01, color)
       else [])
  }

  /** The copies of a thick line never disturb the base line: every
      on-grid cell of the base line ends exactly as the base line alone
      left it, because the copies lie 0.01 behind it. */
  lemma ThickLineKeepsBase(g: Grid, width: nat, height: nat, x1: real, y1: real, x2: real, y2: real,
                           glyph: string, z: real, color: Option<string>, thickness: int, k: nat)
    requires IsGrid(g, width, height)
    requires k < |Line(Trunc(x1), Trunc(y1), Trunc(x2), Trunc(y2))|
    requires var p := Line(Trunc(x1), Trunc(y1), Trunc(x2), Trunc(y2))[k]; 0 <= p.0 < width && 0 <= p.1 < height
    ensures var p := Line(Trunc(x1), Trunc(y1), Trunc(x2), Trunc(y2))[k];
      Plot(g, width, height, ThickLineWrites(x1, y1, x2, y2, glyph, z, color, thickness))[p.1][p.0]
      == Plot(g, width, height, LineWrites(x1, y1, x2, y2, glyph, z, color))[p.1][p.0]
  {
    var p := Line(Trunc(x1), Trunc(y1), Trunc(x2), Trunc(y2))[k];
    var base := LineWrites(x1, y1, x2, y2, glyph, z, color);
    var extra := ThickCopiesBehind(x1, y1, x2, y2, glyph, z, color, thickness);
    PointWritesAt(Line(Trunc(x1), Trunc(y1), Trunc(x2), Trunc(y2)), glyph, z, color);
    PlotReachesDepth(g, width, height, base, k, p.0, p.1);
    PlotAppend(g, width, height, base, extra);
    PlotKeepsNearerCell(Plot(g, width, height, base), width, height, extra, p.0, p.1, z);
  }

  /** The writes a thick line adds after its base line all lie behind
      the base line's depth. */
  lemma ThickCopiesBehind(x1: real, y1: real, x2: real, y2: real, glyph: string, z: real,
                          color: Option<string>, thickness: int)
    returns (extra: seq<Write>)
    ensures ThickLineWrites(x1, y1, x2, y2, glyph, z, color, thickness)
         == LineWrites(x1, y1, x2, y2, glyph, z, color) + extra
    ensures AllBehind(extra, z)
  {
    var z' := z + 0.01;
    var right := if thickness > 1 then LineWrites(x1 + 1.0, y1, x2 + 1.0, y2, glyph, z', color) else [];
    var down := if thickness > 2 then
         LineWrites(x1, y1 + 1.0, x2, y2 + 1.0, glyph, z', color)
         + LineWrites(x1 + 1.0, y1 + 1.0, x2 + 1.0, y2 + 1.0, glyph, z', color)
       else [];
    extra := right + down;
    LineWritesAt(x1 + 1.0, y1, x2 + 1.0, y2, glyph, z', color);
    LineWritesAt(x1, y1 + 1.0, x2, y2 + 1.0, glyph, z', color);
    LineWritesAt(x1 + 1.0, y1 + 1.0, x2 + 1.0, y2 + 1.0, glyph, z', color);
    AllBehindAppend(LineWrites(x1, y1 + 1.0, x2, y2 + 1.0, glyph, z', color),
                    LineWrites(x1 + 1.0, y1 + 1.0, x2 + 1.0, y2 + 1.0, glyph, z', color), z);
    AllBehindAppend(right, down, z);
  }

  /** Every write lies at depth z0 or farther. */
  predicate AllBehind(ws: seq<Write>, z0: real)
  {
    forall i :: 0 <= i < |ws| ==> z0 <= ws[i].z
  }

  lemma AllBehindAppend(a: seq<Write>, b: seq<Write>, z0: real)
    requires AllBehind(a, z0) && AllBehind(b, z0)
    ensures AllBehind(a + b, z0)
  {
  }

  lemma LineWritesAt(x1: real, y1: real, x2: real, y2: real, glyph: string, z: real, color: Option<string>)
    ensures forall i :: 0 <= i < |LineWrites(x1, y1, x2, y2, glyph, z, color)| ==>
      LineWrites(x1, y1, x2, y2, glyph, z, color)[i].z == z
  {
    PointWritesAt(Line(Trunc(x1), Trunc(y1), Trunc(x2), Trunc(y2)), glyph, z, color);
  }

  // ---------------------------------------------------------------------
  // draw_line_subpixel

  const LowerHalf: string := "▄"
  const UpperHalf: string := "▀"

  /** The Chebyshev length of the segment, raised to at least 1. */
  function SubpixelLength(x1: real, y1: real, x2: real, y2: real): (len: real)
    ensures len >= 1.0
  {
    var l := MaxReal(AbsReal(x2 - x1), AbsReal(y2 - y1));
    if l < 1.0 then 1.0 else l
  }

  /** int(length * 2): the number of steps, at least 2. */
  function SubpixelSteps(x1: real, y1: real, x2: real, y2: real): (n: nat)
    ensures n >= 2
  {
    TruncBounds(SubpixelLength(x1, y1, x2, y2) * 2.0);
    Trunc(SubpixelLength(x1, y1, x2, y2) * 2.0)
  }

  /** The half block for a vertical position: lower half when the
      fractional part (after truncation toward zero) exceeds 0.5. */
  function HalfBlock(y: real): string
  {
    if y - Trunc(y) as real > 0.5 then LowerHalf else UpperHalf
  }

  /** The i-th sample point of draw_line_subpixel, for a line of the
      given number of steps. */
  function SubpixelWrite(x1: real, y1: real, x2: real, y2: real, steps: nat, z: real, color: Option<string>, i: nat): Write
  {
    var t := i as real / Max(steps, 1) as real;
    var x := x1 + (x2 - x1) * t;
    var y := y1 + (y2 - y1) * t;
    Write(Trunc(x), Trunc(y), HalfBlock(y), z, color, 1.0)
  }

  function SubpixelWrites(x1: real, y1: real, x2: real, y2: real, z: real, color: Option<string>): (ws: seq<Write>)
    ensures |ws| == SubpixelSteps(x1, y1, x2, y2) + 1
  {
    var steps := SubpixelSteps(x1, y1, x2, y2);
    seq(steps + 1, i requires 0 <= i => SubpixelWrite(x1, y1, x2, y2, steps, z, color, i))
  }

  /** The sub-pixel line samples at least three points and starts at the
      first end point. */
  lemma SubpixelStart(x1: real, y1: real, x2: real, y2: real, z: real, color: Option<string>)
    ensures var ws := SubpixelWrites(x1, y1, x2, y2, z, color);
      && |ws| >= 3
      && ws[0].x == Trunc(x1) && ws[0].y == Trunc(y1) && ws[0].glyph == HalfBlock(y1)
  {
    var ws := SubpixelWrites(x1, y1, x2, y2, z, color);
    var steps := SubpixelSteps(x1, y1, x2, y2);
    assert 0 as real / steps as real == 0.0;
    assert ws[0] == SubpixelWrite(x1, y1, x2, y2, steps, z, color, 0);
  }

  /** The last sample is the second end point: t reaches exactly 1. */
  lemma SubpixelEnd(x1: real, y1: real, x2: real, y2: real, z: real, color: Option<string>)
    ensures var ws := SubpixelWrites(x1, y1, x2, y2, z, color);
      && ws[|ws| - 1].x == Trunc(x2) && ws[|ws| - 1].y == Trunc(y2)
      && ws[|ws| - 1].glyph == HalfBlock(y2)
  {
    var ws := SubpixelWrites(x1, y1, x2, y2, z, color);
    var steps := SubpixelSteps(x1, y1, x2, y2);
    assert Max(steps, 1) == steps;
    assert steps as real / steps as real == 1.0;
    assert ws[steps] == SubpixelWrite(x1, y1, x2, y2, steps, z, color, steps);
  }

  /** Every sample is drawn as an upper or a lower half block. */
  lemma SubpixelHalfBlocks(x1: real, y1: real, x2: real, y2: real, z: real, color: Option<string>)
    ensures var ws := SubpixelWrites(x1, y1, x2, y2, z, color);
      forall i :: 0 <= i < |ws| ==> ws[i].glyph in {LowerHalf, UpperHalf}
  {
  }

  // ---------------------------------------------------------------------
  // render

  /** The pieces render joins: colour codes, RESET, and cell glyphs. */
  datatype Part = SetColor(code: string) | ResetCode | Glyph(text: string)

  /** Python truthiness of a colour: None and "" are false. */
  predicate Truthy(c: Option<string>)
  {
    c.Some? && c.value != ""
  }

  /** The colour in force before cell x of a row: None at the start. */
  function PrevColor(row: seq<Cell>, x: nat): Option<string>
    requires x <= |row|
  {
    if x == 0 then None else row[x - 1].color
  }

  /** The parts one cell adds, given the colour of the cell before. */
  function CellParts(prev: Option<string>, c: Cell): seq<Part>
  {
    (if c.color != prev then
       (if Truthy(c.color) then [SetColor(c.color.value)]
        else if Truthy(prev) then [ResetCode]
        else [])
     else [])
    + [Glyph(c.glyph)]
  }

  /** The parts of the first n cells of a row. */
  function PartsUpTo(row: seq<Cell>, n: nat): seq<Part>
    requires n <= |row|
  {
    if n == 0 then [] else PartsUpTo(row, n - 1) + CellParts(PrevColor(row, n - 1), row[n - 1])
  }

  /** All parts of a row, closed by RESET if a colour is still open. */
  function RowParts(row: seq<Cell>): seq<Part>
  {
    PartsUpTo(row, |row|) + (if Truthy(PrevColor(row, |row|)) then [ResetCode] else [])
  }

  function PartText(p: Part): string
  {
    match p
    case SetColor(code) => code
    case ResetCode => Colors.Reset
    case Glyph(text) => text
  }

  /** ''.join of the parts. */
  function PartsText(ps: seq<Part>): string
  {
    if ps == [] then "" else PartsText(ps[..|ps| - 1]) + PartText(ps[|ps| - 1])
  }

  function RowText(row: seq<Cell>): string
  {
    PartsText(RowParts(row))
  }

  /** '\n'.join of the lines. */
  function JoinLines(lines: seq<string>): (s: string)
    ensures |lines| == 1 ==> s == lines[0]
  {
    if lines == [] then ""
    else if |lines| == 1 then lines[0]
    else JoinLines(lines[..|lines| - 1]) + "\n" + lines[|lines| - 1]
  }

  /** The whole frame render returns. */
  function RenderText(g: Grid): string
  {
    JoinLines(seq(|g|, y requires 0 <= y < |g| => RowText(g[y])))
  }

  /** s holds no line break. */
  predicate NoNewline(s: string)
  {
    forall i :: 0 <= i < |s| ==> s[i] != '\n'
  }

  /** str.split('\n'): the pieces between the line breaks, one more than
      there are breaks. */
  function SplitLines(s: string): (ls: seq<string>)
    ensures |ls| >= 1
  {
    if s == [] then [""]
    else
      var init := SplitLines(s[..|s| - 1]);
      if s[|s| - 1] == '\n' then init + [""]
      else init[..|init| - 1] + [init[|init| - 1] + [s[|s| - 1]]]
  }

  /** Text without a break extends the last piece. */
  lemma {:induction false} SplitPlain(s: string, b: string)
    requires NoNewline(b)
    ensures var ls := SplitLines(s);
      SplitLines(s + b) == ls[..|ls| - 1] + [ls[|ls| - 1] + b]
    decreases |b|
  {
    if b == [] {
      var ls := SplitLines(s);
      assert s + b == s;
      assert ls[|ls| - 1] + b == ls[|ls| - 1];
      assert ls[..|ls| - 1] + [ls[|ls| - 1]] == ls;
    } else {
      var b' := b[..|b| - 1];
      assert (s + b)[..|s + b| - 1] == s + b';
      assert (s + b)[|s + b| - 1] == b[|b| - 1];
      SplitPlain(s, b');
      var ls := SplitLines(s);
      var ls' := SplitLines(s + b');
      assert ls'[..|ls'| - 1] == ls[..|ls| - 1];
      assert ls'[|ls'| - 1] + [b[|b| - 1]] == ls[|ls| - 1] + b;
    }
  }

  /** A break opens a new, empty piece. */
  lemma SplitNewline(s: string)
    ensures SplitLines(s + "\n") == SplitLines(s) + [""]
  {
    assert (s + "\n")[..|s + "\n"| - 1] == s;
  }

  /** Splitting undoes joining, for at least one line and lines without
      breaks: a frame's rows come back out of the rendered text. */
  lemma {:induction false} SplitJoin(lines: seq<string>)
    requires |lines| >= 1
    requires forall i :: 0 <= i < |lines| ==> NoNewline(lines[i])
    ensures SplitLines(JoinLines(lines)) == lines
    decreases |lines|
  {
    var last := lines[|lines| - 1];
    if |lines| == 1 {
      SplitPlain("", last);
      assert "" + last == last;
    } else {
      var init := lines[..|lines| - 1];
      var j := JoinLines(init);
      SplitJoin(init);
      SplitNewline(j);
      SplitPlain(j + "\n", last);
      var split := SplitLines(j + "\n");
      assert split == init + [""];
      assert split[..|split| - 1] == init;
      assert split[|split| - 1] + last == last;
      assert JoinLines(lines) == (j + "\n") + last;
      assert init + [last] == lines;
    }
  }

  lemma NoNewlineConcat(a: string, b: string)
    requires NoNewline(a) && NoNewline(b)
    ensures NoNewline(a + b)
  {
    forall i | 0 <= i < |a + b|
      ensures (a + b)[i] != '\n'
    {
      if i >= |a| {
        assert (a + b)[i] == b[i - |a|];
      }
    }
  }

  /** The cells hold no line break in their glyphs or colour codes. */
  predicate RowPlain(row: seq<Cell>)
  {
    forall x :: 0 <= x < |row| ==>
      NoNewline(row[x].glyph) && (row[x].color.Some? ==> NoNewline(row[x].color.value))
  }

  predicate PartsPlain(ps: seq<Part>)
  {
    forall i :: 0 <= i < |ps| ==> NoNewline(PartText(ps[i]))
  }

  lemma ResetPlain()
    ensures NoNewline(Colors.Reset)
  {
    assert Colors.Reset == ['\U{1B}', '[', '0', 'm'];
  }

  lemma {:induction false} PartsTextPlain(ps: seq<Part>)
    requires PartsPlain(ps)
    ensures NoNewline(PartsText(ps))
    decreases |ps|
  {
    if ps != [] {
      PartsTextPlain(ps[..|ps| - 1]);
      NoNewlineConcat(PartsText(ps[..|ps| - 1]), PartText(ps[|ps| - 1]));
    }
  }

  lemma {:induction false} PartsUpToPlain(row: seq<Cell>, n: nat)
    requires n <= |row| && RowPlain(row)
    ensures PartsPlain(PartsUpTo(row, n))
    decreases n
  {
    if n > 0 {
      PartsUpToPlain(row, n - 1);
      ResetPlain();
      var cp := CellParts(PrevColor(row, n - 1), row[n - 1]);
      assert PartsPlain(cp);
      assert PartsUpTo(row, n) == PartsUpTo(row, n - 1) + cp;
    }
  }

  /** A rendered row is one line of the frame: it holds no break when
      its cells hold none. */
  lemma RowTextPlain(row: seq<Cell>)
    requires RowPlain(row)
    ensures NoNewline(RowText(row))
  {
    PartsUpToPlain(row, |row|);
    ResetPlain();
    PartsTextPlain(RowParts(row));
  }

  /** The rendered frame splits back into its rendered rows, one line per
      row; an empty grid renders as the empty string. */
  lemma RenderSplits(g: Grid)
    requires forall y :: 0 <= y < |g| ==> RowPlain(g[y])
    ensures |g| == 0 ==> RenderText(g) == ""
    ensures |g| > 0 ==>
      SplitLines(RenderText(g)) == seq(|g|, y requires 0 <= y < |g| => RowText(g[y]))
  {
    var lines := seq(|g|, y requires 0 <= y < |g| => RowText(g[y]));
    forall y | 0 <= y < |g|
      ensures NoNewline(lines[y])
    {
      RowTextPlain(g[y]);
    }
    if |g| > 0 {
      SplitJoin(lines);
    }
  }

  /** The text of the glyph parts only: what is left once the colour
      codes and resets are stripped. */
  function GlyphText(ps: seq<Part>): string
  {
    if ps == [] then ""
    else GlyphText(ps[..|ps| - 1]) + (if ps[|ps| - 1].Glyph? then ps[|ps| - 1].text else "")
  }

  /** The glyphs of the first n cells, concatenated. */
  function RowGlyphs(row: seq<Cell>, n: nat): string
    requires n <= |row|
  {
    if n == 0 then "" else RowGlyphs(row, n - 1) + row[n - 1].glyph
  }

  lemma {:induction false} GlyphTextAppend(a: seq<Part>, b: seq<Part>)
    ensures GlyphText(a + b) == GlyphText(a) + GlyphText(b)
    decreases |b|
  {
    if b == [] {
      assert a + b == a;
    } else {
      assert (a + b)[..|a + b| - 1] == a + b[..|b| - 1];
      GlyphTextAppend(a, b[..|b| - 1]);
    }
  }

  /** Stripping the codes from a rendered row gives exactly the row's
      glyphs, in order. */
  lemma {:induction false} StrippedRowIsGlyphs(row: seq<Cell>)
    ensures GlyphText(RowParts(row)) == RowGlyphs(row, |row|)
  {
    StrippedPrefixIsGlyphs(row, |row|);
    var tail := if Truthy(PrevColor(row, |row|)) then [ResetCode] else [];
    GlyphTextAppend(PartsUpTo(row, |row|), tail);
    assert GlyphText(tail) == "" by {
      if tail != [] {
        assert tail[..0] == [];
      }
    }
  }

  lemma {:induction false} StrippedPrefixIsGlyphs(row: seq<Cell>, n: nat)
    requires n <= |row|
    ensures GlyphText(PartsUpTo(row, n)) == RowGlyphs(row, n)
    decreases n
  {
    if n > 0 {
      StrippedPrefixIsGlyphs(row, n - 1);
      var before := PartsUpTo(row, n - 1);
      var cp := CellParts(PrevColor(row, n - 1), row[n - 1]);
      assert PartsUpTo(row, n) == before + cp;
      GlyphTextAppend(before, cp);
      CellPartsGlyph(PrevColor(row, n - 1), row[n - 1]);
      assert RowGlyphs(row, n) == RowGlyphs(row, n - 1) + row[n - 1].glyph;
    }
  }

  /** The glyphs of n cells, none empty, take at least n characters, and
      a three-character glyph among them adds two more. */
  lemma {:induction false} RowGlyphsWidth(row: seq<Cell>, n: nat, i: nat)
    requires n <= |row|
    requires forall x :: 0 <= x < |row| ==> |row[x].glyph| >= 1
    ensures |RowGlyphs(row, n)| >= n
    ensures i < n && |row[i].glyph| == 3 ==> |RowGlyphs(row, n)| >= n + 2
    decreases n
  {
    if n > 0 {
      RowGlyphsWidth(row, n - 1, i);
    }
  }

  /** One-character glyphs take one character each. */
  lemma {:induction false} RowGlyphsNarrow(row: seq<Cell>, n: nat)
    requires n <= |row|
    requires forall x :: 0 <= x < |row| ==> |row[x].glyph| == 1
    ensures |RowGlyphs(row, n)| == n
    decreases n
  {
    if n > 0 {
      RowGlyphsNarrow(row, n - 1);
    }
  }

  /** The parts of one cell hold its glyph and nothing else but codes. */
  lemma CellPartsGlyph(prev: Option<string>, c: Cell)
    ensures GlyphText(CellParts(prev, c)) == c.glyph
  {
    var cp := CellParts(prev, c);
    var codes := cp[..|cp| - 1];
    assert GlyphText(codes) == "" by {
      if codes != [] {
        assert codes[..|codes| - 1] == [];
      }
    }
  }

  /** A terminal reading the parts: it shows each glyph in the colour in
      force and tracks that colour; a code sets it, RESET clears it. */
  datatype Shown = Shown(cells: seq<(string, Option<string>)>, color: Option<string>)

  function TerminalStep(st: Shown, p: Part): Shown
  {
    match p
    case SetColor(code) => Shown(st.cells, Some(code))
    case ResetCode => Shown(st.cells, None)
    case Glyph(text) => Shown(st.cells + [(text, st.color)], st.color)
  }

  function Terminal(st: Shown, ps: seq<Part>): Shown
  {
    if ps == [] then st else TerminalStep(Terminal(st, ps[..|ps| - 1]), ps[|ps| - 1])
  }

  lemma {:induction false} TerminalAppend(st: Shown, a: seq<Part>, b: seq<Part>)
    ensures Terminal(st, a + b) == Terminal(Terminal(st, a), b)
    decreases |b|
  {
    if b == [] {
      assert a + b == a;
    } else {
      assert (a + b)[..|a + b| - 1] == a + b[..|b| - 1];
      TerminalAppend(st, a, b[..|b| - 1]);
    }
  }

  /** The colour a cell is meant to be seen in: its colour if truthy,
      the default otherwise. */
  function Effective(c: Option<string>): Option<string>
  {
    if Truthy(c) then c else None
  }

  /** A row's cells as they are meant to be seen. */
  function Intended(row: seq<Cell>, n: nat): (r: seq<(string, Option<string>)>)
    requires n <= |row|
    ensures |r| == n
  {
    if n == 0 then [] else Intended(row, n - 1) + [(row[n - 1].glyph, Effective(row[n - 1].color))]
  }

  lemma TerminalOfTwo(st: Shown, p: Part, q: Part)
    ensures Terminal(st, [p]) == TerminalStep(st, p)
    ensures Terminal(st, [p, q]) == TerminalStep(TerminalStep(st, p), q)
  {
    assert [p][..0] == [];
    assert [p, q][..1] == [p];
  }

  lemma TerminalCell(st: Shown, prev: Option<string>, c: Cell)
    requires st.color == Effective(prev)
    ensures Terminal(st, CellParts(prev, c)) == Shown(st.cells + [(c.glyph, Effective(c.color))], Effective(c.color))
  {
    var g := Glyph(c.glyph);
    if c.color != prev && Truthy(c.color) {
      assert CellParts(prev, c) == [SetColor(c.color.value), g];
      TerminalOfTwo(st, SetColor(c.color.value), g);
    } else if c.color != prev && Truthy(prev) {
      assert CellParts(prev, c) == [ResetCode, g];
      TerminalOfTwo(st, ResetCode, g);
    } else {
      assert CellParts(prev, c) == [g];
      TerminalOfTwo(st, g, g);
    }
  }

  lemma {:induction false} TerminalPrefix(row: seq<Cell>, n: nat)
    requires n <= |row|
    ensures Terminal(Shown([], None), PartsUpTo(row, n)) == Shown(Intended(row, n), Effective(PrevColor(row, n)))
    decreases n
  {
    if n > 0 {
      TerminalPrefix(row, n - 1);
      var cp := CellParts(PrevColor(row, n - 1), row[n - 1]);
      TerminalAppend(Shown([], None), PartsUpTo(row, n - 1), cp);
      TerminalCell(Terminal(Shown([], None), PartsUpTo(row, n - 1)), PrevColor(row, n - 1), row[n - 1]);
    }
  }

  /** A terminal that starts in the default colour and reads a rendered row
      shows every cell's glyph in the cell's own colour (the default for
      None or ""), and is back in the default colour at the end of the row,
      so no colour bleeds into the next line. */
  lemma RowShowsIntended(row: seq<Cell>)
    ensures Terminal(Shown([], None), RowParts(row)) == Shown(Intended(row, |row|), None)
  {
    TerminalPrefix(row, |row|);
    var tail := if Truthy(PrevColor(row, |row|)) then [ResetCode] else [];
    TerminalAppend(Shown([], None), PartsUpTo(row, |row|), tail);
    if tail != [] {
      assert tail[..0] == [];
    }
  }

  /** The number of colour codes and resets among the parts. */
  function CodeCount(ps: seq<Part>): nat
  {
    if ps == [] then 0 else CodeCount(ps[..|ps| - 1]) + (if ps[|ps| - 1].Glyph? then 0 else 1)
  }

  /** The number of cells among the first n whose colour differs from the
      colour before them. */
  function ColorChanges(row: seq<Cell>, n: nat): nat
    requires n <= |row|
  {
    if n == 0 then 0 else ColorChanges(row, n - 1) + (if row[n - 1].color != PrevColor(row, n - 1) then 1 else 0)
  }

  lemma {:induction false} CodeCountAppend(a: seq<Part>, b: seq<Part>)
    ensures CodeCount(a + b) == CodeCount(a) + CodeCount(b)
    decreases |b|
  {
    if b == [] {
      assert a + b == a;
    } else {
      assert (a + b)[..|a + b| - 1] == a + b[..|b| - 1];
      CodeCountAppend(a, b[..|b| - 1]);
    }
  }

  /** Codes are emitted only where the colour changes: never more codes
      than colour changes, plus the one closing RESET. */
  lemma {:induction false} CodesOnlyAtChanges(row: seq<Cell>)
    ensures CodeCount(RowParts(row)) <= ColorChanges(row, |row|) + 1
  {
    CodesPrefix(row, |row|);
    var tail := if Truthy(PrevColor(row, |row|)) then [ResetCode] else [];
    CodeCountAppend(PartsUpTo(row, |row|), tail);
    if tail != [] {
      assert tail[..0] == [];
    }
  }

  lemma {:induction false} CodesPrefix(row: seq<Cell>, n: nat)
    requires n <= |row|
    ensures CodeCount(PartsUpTo(row, n)) <= ColorChanges(row, n)
    decreases n
  {
    if n > 0 {
      CodesPrefix(row, n - 1);
      var cp := CellParts(PrevColor(row, n - 1), row[n - 1]);
      CodeCountAppend(PartsUpTo(row, n - 1), cp);
      var codes := cp[..|cp| - 1];
      assert cp == codes + [Glyph(row[n - 1].glyph)];
      CodeCountAppend(codes, [Glyph(row[n - 1].glyph)]);
      assert CodeCount([Glyph(row[n - 1].glyph)]) == 0 by {
        assert [Glyph(row[n - 1].glyph)][..0] == [];
      }
      if codes != [] {
        assert codes[..0] == [];
      }
    }
  }

  // ---------------------------------------------------------------------
  // Drawing from a dictionary

  /** Each write of the map lands on its own key. */
  predicate AtKeys(ws: map<Pos, Write>)
  {
    forall p :: p in ws ==> LandsAt(ws[p], p.0, p.1)
  }

  /** What a successful write leaves in its cell. */
  function Written(wr: Write): Cell
  {
    Cell(wr.glyph, Fin(wr.z), wr.color, wr.intensity)
  }

  /** set_pixel once for each entry of a dictionary of writes whose key
      is in keys, each at its own key: cell by cell, the write at that
      cell if it passes the depth test, the old cell otherwise. */
  function PaintKeys(g: Grid, width: nat, height: nat, ws: map<Pos, Write>, keys: set<Pos>): (r: Grid)
    requires IsGrid(g, width, height)
    ensures IsGrid(r, width, height)
  {
    seq(height, y requires 0 <= y < height =>
      seq(width, x requires 0 <= x < width =>
        if (x, y) in ws && (x, y) in keys && Nearer(ws[(x, y)].z, g[y][x].depth) then Written(ws[(x, y)]) else g[y][x]))
  }

  /** set_pixel once for every entry of the dictionary. */
  function Paint(g: Grid, width: nat, height: nat, ws: map<Pos, Write>): (r: Grid)
    requires IsGrid(g, width, height)
    ensures IsGrid(r, width, height)
  {
    PaintKeys(g, width, height, ws, ws.Keys)
  }

  /** Painting no entry leaves the grid as it is. */
  lemma PaintNothing(g: Grid, width: nat, height: nat, ws: map<Pos, Write>)
    requires IsGrid(g, width, height)
    ensures PaintKeys(g, width, height, ws, {}) == g
  {
    var r := PaintKeys(g, width, height, ws, {});
    forall y | 0 <= y < height
      ensures r[y] == g[y]
    {
    }
  }

  /** The calls in any order give the same grid: one more entry painted is
      one more set_pixel on the grid painted so far. */
  lemma PaintStep(g: Grid, width: nat, height: nat, ws: map<Pos, Write>, done: set<Pos>, p: Pos)
    requires IsGrid(g, width, height) && AtKeys(ws)
    requires p in ws && p !in done
    ensures SetPixel(PaintKeys(g, width, height, ws, done), width, height, ws[p]).0
         == PaintKeys(g, width, height, ws, done + {p})
  {
    var before := PaintKeys(g, width, height, ws, done);
    var after := PaintKeys(g, width, height, ws, done + {p});
    var r := SetPixel(before, width, height, ws[p]).0;
    SetPixelEffect(before, width, height, ws[p]);
    forall y | 0 <= y < height
      ensures r[y] == after[y]
    {
      forall x | 0 <= x < width
        ensures r[y][x] == after[y][x]
      {
        if (x, y) != p {
          assert !LandsAt(ws[p], x, y);
        }
      }
    }
  }
}
