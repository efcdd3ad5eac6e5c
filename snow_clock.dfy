/** The snow clock (animations/time/t_snow_clock.py): a hundred flakes
    fall at one of three speeds with a horizontal wobble, and snow piles
    up on the ground in densities 1 to 4, stacking upward where it is
    full. Randomness is a parameter: the spawn draws of a reset, and per
    flake the wobble and the respawn column random.randint would give. */
module SnowClock {
  import opened Common
  import opened Surface
  import Screen
  import Colors

  /** Flake glyphs by speed. */
  const SnowChars: seq<char> := ['*', '+', '.']

  /** Ground glyphs by density. */
  const SnowGroundChars: seq<char> := [' ', '_', '.', 'x', 'X']

  /** len(SNOW_GROUND_CHARS) - 1. */
  const MaxSnowDensity: int := |SnowGroundChars| - 1

  /** The number of flakes of a reset (MAXSNOW of the original). */
  const FlakeCount: nat := 100

  lemma Constants()
    ensures MaxSnowDensity == 4 && |SnowChars| == 3
    ensures forall d :: 1 <= d <= MaxSnowDensity ==> SnowGroundChars[d] != ' '
  {
  }

  /** A snowflake: its position, its speed type (0, 1 or 2) and the
      frame counter that paces it. */
  datatype Flake = Flake(x: int, y: int, spd: int, spdcounter: int)

  /** Snow density by position. */
  type Ground = map<Pos, int>

  /** ground.get(k, 0). */
  function Get(g: Ground, k: Pos): int
  {
    if k in g then g[k] else 0
  }

  // ---------------------------------------------------------------------
  // Invariants

  /** A flake on the screen, of a known speed, its counter within its
      period. */
  predicate FlakeOk(f: Flake, w: int, h: int)
  {
    0 <= f.x < w && 0 <= f.y < h && 0 <= f.spd <= 2 && 0 <= f.spdcounter <= f.spd + 2
  }

  predicate FlakesOk(fs: seq<Flake>, w: int, h: int)
  {
    forall i :: 0 <= i < |fs| ==> FlakeOk(fs[i], w, h)
  }

  /** Every ground position is on the screen with a density in
      [1, MaxSnowDensity]. */
  predicate GroundOk(g: Ground, w: int, h: int)
  {
    forall k :: k in g ==> 0 <= k.0 < w && 0 <= k.1 < h && 1 <= g[k] <= MaxSnowDensity
  }

  /** No density has gone down from a to b and no position was lost. */
  predicate Accumulated(a: Ground, b: Ground)
  {
    forall k :: k in a ==> k in b && a[k] <= b[k]
  }

  lemma AccumulatedTrans(a: Ground, b: Ground, c: Ground)
    requires Accumulated(a, b) && Accumulated(b, c)
    ensures Accumulated(a, c)
  {
  }

  // ---------------------------------------------------------------------
  // Settling snow (inc_snow_bg)

  /** One more unit of snow at k, capped at MaxSnowDensity. */
  function Bump(g: Ground, k: Pos): Ground
  {
    g[k := Min(Get(g, k) + 1, MaxSnowDensity)]
  }

  /** The body of the dx loop for column nx: bump (nx, y) and, when it
      is full and not on the top row, the position above it too. */
  function SettleAt(g: Ground, nx: int, y: int, w: int): Ground
  {
    if 0 <= nx < w then
      var g1 := Bump(g, (nx, y));
      if g1[(nx, y)] >= MaxSnowDensity && y > 0 then Bump(g1, (nx, y - 1)) else g1
    else g
  }

  /** The first n iterations of the dx loop, dx running from -1. */
  function SettleFrom(g: Ground, x: int, y: int, w: int, n: nat): Ground
  {
    if n == 0 then g else SettleAt(SettleFrom(g, x, y, w, n - 1), x + n - 2, y, w)
  }

  /** A landing at (x, y): the whole dx loop. */
  function Settle(g: Ground, x: int, y: int, w: int): Ground
  {
    SettleFrom(g, x, y, w, 3)
  }

  lemma SettleAtKeeps(g: Ground, nx: int, y: int, w: int, h: int)
    requires GroundOk(g, w, h) && 0 <= y < h
    ensures GroundOk(SettleAt(g, nx, y, w), w, h)
    ensures Accumulated(g, SettleAt(g, nx, y, w))
  {
  }

  lemma {:induction false} SettleFromKeeps(g: Ground, x: int, y: int, w: int, h: int, n: nat)
    requires GroundOk(g, w, h) && 0 <= y < h
    ensures GroundOk(SettleFrom(g, x, y, w, n), w, h)
    ensures Accumulated(g, SettleFrom(g, x, y, w, n))
  {
    if n > 0 {
      SettleFromKeeps(g, x, y, w, h, n - 1);
      SettleStepKeeps(g, SettleFrom(g, x, y, w, n - 1), SettleFrom(g, x, y, w, n), x + n - 2, y, w, h);
    }
  }

  lemma SettleStepKeeps(g: Ground, prev: Ground, next: Ground, nx: int, y: int, w: int, h: int)
    requires GroundOk(prev, w, h) && Accumulated(g, prev) && 0 <= y < h
    requires next == SettleAt(prev, nx, y, w)
    ensures GroundOk(next, w, h) && Accumulated(g, next)
  {
    SettleAtKeeps(prev, nx, y, w, h);
    AccumulatedTrans(g, prev, next);
  }

  /** A column other than nx on row y is left alone by SettleAt. */
  lemma SettleAtElsewhere(g: Ground, nx: int, y: int, w: int, x: int)
    requires x != nx
    ensures Get(SettleAt(g, nx, y, w), (x, y)) == Get(g, (x, y))
  {
  }

  /** The landing position itself gains exactly one unit of snow, up to
      the cap: the dx loop bumps it once, and the stacking only ever
      touches the row above. */
  lemma SettleRaisesLanding(g: Ground, x: int, y: int, w: int)
    requires 0 <= x < w
    ensures Get(Settle(g, x, y, w), (x, y)) == Min(Get(g, (x, y)) + 1, MaxSnowDensity)
  {
    assert SettleFrom(g, x, y, w, 0) == g;
    var g1 := SettleAt(g, x - 1, y, w);
    assert SettleFrom(g, x, y, w, 1) == g1;
    SettleAtElsewhere(g, x - 1, y, w, x);
    var g2 := SettleAt(g1, x, y, w);
    assert SettleFrom(g, x, y, w, 2) == g2;
    assert Settle(g, x, y, w) == SettleAt(g2, x + 1, y, w);
    SettleAtElsewhere(g2, x + 1, y, w, x);
  }

  /** The dx loop of a landing. */
  method SettleSnow(g: Ground, x: int, y: int, w: int) returns (r: Ground)
    ensures r == Settle(g, x, y, w)
  {
    r := g;
    for dx := -1 to 2
      invariant r == SettleFrom(g, x, y, w, dx + 1)
    {
      var nx := x + dx;
      if 0 <= nx < w {
        var key := (nx, y);
        var oldDensity := Get(r, key);
        var newDensity := Min(oldDensity + 1, MaxSnowDensity);
        r := r[key := newDensity];
        if newDensity >= MaxSnowDensity && y > 0 {
          var upKey := (nx, y - 1);
          r := r[upKey := Min(Get(r, upKey) + 1, MaxSnowDensity)];
        }
      }
    }
  }

  // ---------------------------------------------------------------------
  // Moving a flake (calc_bg_snow)

  /** One frame of one flake, with its wobble draw in [-1, 1] and its
      respawn column: the counter advances, and once it passes spd + 2
      the flake drops a row and wobbles, wrapping at the sides; past the
      bottom it respawns on the top row, otherwise landing on snow
      settles more snow around it. */
  function FlakeStep(f: Flake, g: Ground, w: int, h: int, wob: int, rx: int): (r: (Flake, Ground))
  {
    var c := f.spdcounter + 1;
    if c > f.spd + 2 then
      var y := f.y + 1;
      var x0 := f.x + wob;
      var x := if x0 < 0 then w - 1 else if x0 >= w then 0 else x0;
      if y >= h then (Flake(rx, 0, f.spd, 0), g)
      else if 0 <= x < w && 0 <= y < h && Get(g, (x, y)) > 0 then (Flake(x, y, f.spd, 0), Settle(g, x, y, w))
      else (Flake(x, y, f.spd, 0), g)
    else (f.(spdcounter := c), g)
  }

  /** Well-formed draws for a flake: the wobble in [-1, 1], the respawn
      column on the screen. */
  predicate DrawOk(wob: int, rx: int, w: int)
  {
    -1 <= wob <= 1 && 0 <= rx < w
  }

  /** A flake step keeps the flake on the screen with its counter in its
      period, keeps the ground well formed, and only adds snow. */
  lemma FlakeStepKeeps(f: Flake, g: Ground, w: int, h: int, wob: int, rx: int)
    requires FlakeOk(f, w, h) && GroundOk(g, w, h) && DrawOk(wob, rx, w)
    ensures FlakeOk(FlakeStep(f, g, w, h, wob, rx).0, w, h)
    ensures GroundOk(FlakeStep(f, g, w, h, wob, rx).1, w, h)
    ensures Accumulated(g, FlakeStep(f, g, w, h, wob, rx).1)
    ensures FlakeStep(f, g, w, h, wob, rx).0.spd == f.spd
  {
    if f.spdcounter + 1 > f.spd + 2 && f.y + 1 < h {
      SettleFromKeeps(g, FlakeStep(f, g, w, h, wob, rx).0.x, f.y + 1, w, h, 3);
    }
  }

  /** The pace of a flake: it moves exactly on the frame its counter
      reaches spd + 2, i.e. once every spd + 3 frames, and then either
      drops one row or respawns on the top row. */
  lemma FlakePace(f: Flake, g: Ground, w: int, h: int, wob: int, rx: int)
    requires FlakeOk(f, w, h)
    ensures var n := FlakeStep(f, g, w, h, wob, rx).0;
      && (f.spdcounter < f.spd + 2 ==> n == f.(spdcounter := f.spdcounter + 1))
      && (f.spdcounter == f.spd + 2 ==> n.spdcounter == 0 && (n.y == f.y + 1 || (n.y == 0 && n.x == rx && f.y == h - 1)))
  {
  }

  /** The first n flakes of a frame, each stepping on the ground the
      earlier ones left. */
  function UpdateN(fs: seq<Flake>, g: Ground, w: int, h: int, wobble: seq<int>, respawn: seq<int>, n: nat): (r: (seq<Flake>, Ground))
    requires n <= |fs| && |wobble| == |fs| && |respawn| == |fs|
    ensures |r.0| == n
  {
    if n == 0 then ([], g)
    else
      var prev := UpdateN(fs, g, w, h, wobble, respawn, n - 1);
      var step := FlakeStep(fs[n - 1], prev.1, w, h, wobble[n - 1], respawn[n - 1]);
      (prev.0 + [step.0], step.1)
  }

  predicate DrawsOk(wobble: seq<int>, respawn: seq<int>, w: int)
    requires |wobble| == |respawn|
  {
    forall i :: 0 <= i < |wobble| ==> DrawOk(wobble[i], respawn[i], w)
  }

  /** A frame of updates keeps every flake on the screen, keeps the
      ground well formed and only adds snow. */
  lemma {:induction false} UpdateKeeps(fs: seq<Flake>, g: Ground, w: int, h: int, wobble: seq<int>, respawn: seq<int>, n: nat)
    requires n <= |fs| && |wobble| == |fs| && |respawn| == |fs|
    requires FlakesOk(fs, w, h) && GroundOk(g, w, h) && DrawsOk(wobble, respawn, w)
    ensures FlakesOk(UpdateN(fs, g, w, h, wobble, respawn, n).0, w, h)
    ensures GroundOk(UpdateN(fs, g, w, h, wobble, respawn, n).1, w, h)
    ensures Accumulated(g, UpdateN(fs, g, w, h, wobble, respawn, n).1)
  {
    if n > 0 {
      UpdateKeeps(fs, g, w, h, wobble, respawn, n - 1);
      var prev := UpdateN(fs, g, w, h, wobble, respawn, n - 1);
      FlakeStepKeeps(fs[n - 1], prev.1, w, h, wobble[n - 1], respawn[n - 1]);
      AccumulatedTrans(g, prev.1, UpdateN(fs, g, w, h, wobble, respawn, n).1);
    }
  }

  /** The update loop over the flakes. */
  method UpdateFlakes(fs: seq<Flake>, g: Ground, w: int, h: int, wobble: seq<int>, respawn: seq<int>)
    returns (flakes: seq<Flake>, ground: Ground)
    requires |wobble| == |fs| && |respawn| == |fs|
    ensures (flakes, ground) == UpdateN(fs, g, w, h, wobble, respawn, |fs|)
  {
    flakes, ground := fs, g;
    for i := 0 to |fs|
      invariant |flakes| == |fs|
      invariant flakes[..i] == UpdateN(fs, g, w, h, wobble, respawn, i).0 && flakes[i..] == fs[i..]
      invariant ground == UpdateN(fs, g, w, h, wobble, respawn, i).1
    {
      assert flakes[i] == fs[i];
      var f, next := MoveFlake(flakes[i], ground, w, h, wobble[i], respawn[i]);
      flakes := flakes[i := f];
      ground := next;
      assert flakes[..i + 1] == flakes[..i] + [f];
    }
    assert flakes == flakes[..|fs|];
  }

  /** The loop body for one flake. */
  method MoveFlake(flake: Flake, g: Ground, width: int, height: int, wob: int, rx: int)
    returns (f: Flake, ground: Ground)
    ensures (f, ground) == FlakeStep(flake, g, width, height, wob, rx)
  {
    f, ground := flake, g;
    f := f.(spdcounter := f.spdcounter + 1);
    if f.spdcounter > f.spd + 2 {
      f := f.(spdcounter := 0, y := f.y + 1);
      f := f.(x := f.x + wob);
      if f.x < 0 {
        f := f.(x := width - 1);
      } else if f.x >= width {
        f := f.(x := 0);
      }
      if f.y >= height {
        f := f.(x := rx, y := 0);
      } else if 0 <= f.x < width && 0 <= f.y < height {
        if Get(ground, (f.x, f.y)) > 0 {
          ground := SettleSnow(ground, f.x, f.y, width);
        }
      }
    }
  }

  // ---------------------------------------------------------------------
  // A reset

  /** The flakes of a reset, from draws (x, y, spd) of randint(0, w - 1),
      randint(0, h - 1) and randint(0, 2). */
  function Spawned(spawn: seq<(int, int, int)>): (fs: seq<Flake>)
    ensures |fs| == |spawn|
    ensures forall i :: 0 <= i < |spawn| ==> fs[i] == Flake(spawn[i].0, spawn[i].1, spawn[i].2, 0)
  {
    if spawn == [] then []
    else Spawned(spawn[..|spawn| - 1]) + [Flake(spawn[|spawn| - 1].0, spawn[|spawn| - 1].1, spawn[|spawn| - 1].2, 0)]
  }

  predicate SpawnOk(spawn: seq<(int, int, int)>, w: int, h: int)
  {
    forall i :: 0 <= i < |spawn| ==> 0 <= spawn[i].0 < w && 0 <= spawn[i].1 < h && 0 <= spawn[i].2 <= 2
  }

  /** The bottom row, columns 0 to n - 1. */
  function BottomRow(n: nat, h: int): (s: set<Pos>)
    ensures forall k :: k in s <==> 0 <= k.0 < n && k.1 == h - 1
  {
    if n == 0 then {} else BottomRow(n - 1, h) + {(n - 1, h - 1)}
  }

  /** The initial ground line: density 1 along the bottom row. */
  function BaseGround(w: nat, h: int): (g: Ground)
    requires h > 0
    ensures GroundOk(g, w, h)
    ensures forall k :: k in g <==> 0 <= k.0 < w && k.1 == h - 1
    ensures forall k :: k in g ==> g[k] == 1
  {
    map k | k in BottomRow(w, h) :: 1
  }

  /** The loops of a reset: a hundred flakes and the ground line. */
  method Reset(width: int, height: int, spawn: seq<(int, int, int)>) returns (flakes: seq<Flake>, ground: Ground)
    requires width > 0 && height > 0
    ensures flakes == Spawned(spawn) && ground == BaseGround(width, height)
  {
    flakes := [];
    for i := 0 to |spawn|
      invariant flakes == Spawned(spawn[..i])
    {
      flakes := flakes + [Flake(spawn[i].0, spawn[i].1, spawn[i].2, 0)];
      assert spawn[..i + 1][..i] == spawn[..i];
    }
    assert spawn[..|spawn|] == spawn;
    ground := map[];
    for x := 0 to width
      invariant ground == map k | k in BottomRow(x, height) :: 1
    {
      ground := ground[(x, height - 1) := 1];
      assert BottomRow(x + 1, height) == BottomRow(x, height) + {(x, height - 1)};
    }
  }

  // ---------------------------------------------------------------------
  // Drawing

  /** The write of one flake: its speed's glyph, faster flakes nearer
      (z = 5 - spd), coloured by depth over [0, 8]. */
  function FlakeWrite(f: Flake, gradient: seq<string>): Write
    requires |gradient| > 0 && 0 <= f.spd < |SnowChars|
  {
    var z := 5 - f.spd;
    Write(f.x, f.y, [SnowChars[f.spd]], z as real, Some(Colors.DepthColor(gradient, z as real, 0.0, 8.0)), 1.0)
  }

  /** The flake pass: the flakes on screen, in order. */
  function FlakeWrites(fs: seq<Flake>, width: int, height: int, gradient: seq<string>): (ws: seq<Write>)
    requires |gradient| > 0 && FlakesOk(fs, width, height)
    ensures |ws| == |fs|
    ensures forall i :: 0 <= i < |fs| ==> ws[i] == FlakeWrite(fs[i], gradient)
  {
    if fs == [] then []
    else
      var f := fs[|fs| - 1];
      FlakeWrites(fs[..|fs| - 1], width, height, gradient) + [FlakeWrite(f, gradient)]
  }

  /** The write of one ground position: its density's glyph at depth 10,
      coloured as depth 12 over [0, 15]. */
  function GroundWrite(k: Pos, density: int, gradient: seq<string>): Write
    requires |gradient| > 0 && density > 0
  {
    var glyph := SnowGroundChars[Min(density, MaxSnowDensity)];
    Write(k.0, k.1, [glyph], 10.0, Some(Colors.DepthColor(gradient, 12.0, 0.0, 15.0)), 1.0)
  }

  /** The ground pass: one write per position with snow on the screen. */
  function GroundWrites(g: Ground, width: int, height: int, gradient: seq<string>): (ws: map<Pos, Write>)
    requires |gradient| > 0
    ensures AtKeys(ws)
    ensures forall k :: k in ws <==> k in g && g[k] > 0 && 0 <= k.0 < width && 0 <= k.1 < height
  {
    map k | k in g && g[k] > 0 && 0 <= k.0 < width && 0 <= k.1 < height :: GroundWrite(k, g[k], gradient)
  }

  /** On well-formed ground every position with snow is drawn, with a
      visible glyph, behind every flake. */
  lemma GroundDrawn(g: Ground, width: int, height: int, gradient: seq<string>, k: Pos, f: Flake)
    requires |gradient| > 0 && GroundOk(g, width, height) && k in g && FlakeOk(f, width, height)
    ensures k in GroundWrites(g, width, height, gradient)
    ensures GroundWrites(g, width, height, gradient)[k].glyph == [SnowGroundChars[g[k]]]
    ensures GroundWrites(g, width, height, gradient)[k].glyph != " "
    ensures FlakeWrite(f, gradient).z < GroundWrites(g, width, height, gradient)[k].z
  {
  }

  /** The flake pass over one more flake. */
  lemma FlakeWritesSnoc(fs: seq<Flake>, i: nat, width: int, height: int, gradient: seq<string>)
    requires |gradient| > 0 && FlakesOk(fs, width, height) && i < |fs|
    ensures FlakesOk(fs[..i], width, height) && FlakesOk(fs[..i + 1], width, height)
    ensures FlakeWrites(fs[..i + 1], width, height, gradient)
         == FlakeWrites(fs[..i], width, height, gradient) + [FlakeWrite(fs[i], gradient)]
  {
    assert fs[..i + 1][..i] == fs[..i];
  }

  /** The flake pass loop. */
  method DrawFlakes(buffer: Screen.ScreenBuffer, fs: seq<Flake>, width: int, height: int, gradient: seq<string>)
    requires buffer.Valid() && |gradient| > 0 && FlakesOk(fs, width, height)
    modifies buffer
    ensures buffer.Valid()
    ensures buffer.cells == Plot(old(buffer.cells), buffer.width, buffer.height, FlakeWrites(fs, width, height, gradient))
  {
    ghost var c0 := buffer.cells;
    var bw, bh := buffer.width, buffer.height;
    for i := 0 to |fs|
      invariant buffer.Valid()
      invariant buffer.cells == Plot(c0, bw, bh, FlakeWrites(fs[..i], width, height, gradient))
    {
      var f := fs[i];
      FlakeWritesSnoc(fs, i, width, height, gradient);
      PlotSnoc(c0, bw, bh, FlakeWrites(fs[..i], width, height, gradient), FlakeWrite(f, gradient));
      if 0 <= f.x < width && 0 <= f.y < height {
        var z := 5 - f.spd;
        var color := Colors.DepthColor(gradient, z as real, 0.0, 8.0);
        var _ := buffer.SetPixelAt(f.x, f.y, [SnowChars[f.spd]], z as real, Some(color), 1.0);
      }
    }
    assert fs[..|fs|] == fs;
  }

  // ---------------------------------------------------------------------
  // The state

  class SnowState {
    var flakes: seq<Flake>
    var ground: Ground
    var w: int
    var h: int

    /** Every flake is on the recorded screen with its counter in its
        period, and the ground is well formed. */
    ghost predicate Valid()
      reads this
    {
      FlakesOk(flakes, w, h) && GroundOk(ground, w, h)
    }

    /** SnowState(): no flakes, no ground, size 0 x 0. */
    constructor ()
      ensures Valid() && flakes == [] && ground == map[] && w == 0 && h == 0
    {
      flakes := [];
      ground := map[];
      w := 0;
      h := 0;
    }

    predicate NeedsReset(width: int, height: int)
      reads this
    {
      w != width || h != height
    }

    /** The flakes and ground a frame starts from. */
    function Start(width: int, height: int, spawn: seq<(int, int, int)>): (seq<Flake>, Ground)
      requires NeedsReset(width, height) ==> width > 0 && height > 0
      reads this
    {
      if NeedsReset(width, height) then (Spawned(spawn), BaseGround(width, height)) else (flakes, ground)
    }

    /** render: reset on a size change, step every flake, then draw the
        flakes and the ground. randint(0, width - 1) fails on an empty
        screen, so a reset needs a screen at least 1 x 1. Returns the
        engine's rotation pair. */
    method Render(buffer: Screen.ScreenBuffer, width: int, height: int, spawn: seq<(int, int, int)>,
                  wobble: seq<int>, respawn: seq<int>, gradient: seq<string>)
      returns (rot: (int, int))
      requires Valid() && buffer.Valid() && |gradient| > 0
      requires NeedsReset(width, height) ==> width > 0 && height > 0 && |spawn| == FlakeCount && SpawnOk(spawn, width, height)
      requires |wobble| == |Start(width, height, spawn).0| && |respawn| == |wobble|
      requires DrawsOk(wobble, respawn, width)
      modifies this, buffer
      ensures Valid() && buffer.Valid() && w == width && h == height
      ensures var s := old(Start(width, height, spawn));
        (flakes, ground) == UpdateN(s.0, s.1, width, height, wobble, respawn, |s.0|)
      ensures Accumulated(old(Start(width, height, spawn)).1, ground)
      ensures buffer.cells == Paint(Plot(old(buffer.cells), buffer.width, buffer.height, FlakeWrites(flakes, width, height, gradient)),
                                    buffer.width, buffer.height, GroundWrites(ground, width, height, gradient))
      ensures rot == (-15, 15)
    {
      Advance(width, height, spawn, wobble, respawn);
      DrawFlakes(buffer, flakes, width, height, gradient);
      Screen.PaintAll(buffer, GroundWrites(ground, width, height, gradient));
      rot := (-15, 15);
    }

    /** The update half of render. */
    method Advance(width: int, height: int, spawn: seq<(int, int, int)>, wobble: seq<int>, respawn: seq<int>)
      requires Valid()
      requires NeedsReset(width, height) ==> width > 0 && height > 0 && |spawn| == FlakeCount && SpawnOk(spawn, width, height)
      requires |wobble| == |Start(width, height, spawn).0| && |respawn| == |wobble|
      requires DrawsOk(wobble, respawn, width)
      modifies this
      ensures Valid() && w == width && h == height
      ensures var s := old(Start(width, height, spawn));
        (flakes, ground) == UpdateN(s.0, s.1, width, height, wobble, respawn, |s.0|)
      ensures Accumulated(old(Start(width, height, spawn)).1, ground)
    {
      if NeedsReset(width, height) {
        w := width;
        h := height;
        flakes, ground := Reset(width, height, spawn);
      }
      var fs, g := flakes, ground;
      UpdateKeeps(fs, g, w, h, wobble, respawn, |fs|);
      flakes, ground := UpdateFlakes(fs, g, w, h, wobble, respawn);
    }
  }
}
