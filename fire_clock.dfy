/** The fire clock's heat field (animations/time/t_fire_clock.py): two
    integer grids of heat levels; each frame copies the back buffer to the
    front, feeds the bottom row and a few hot points, lets every interior
    cell take the capped average of its five-cell cross one row up, and
    draws the levels as a ramp of glyphs. Randomness is a parameter: the
    bottom row and the hot points are passed in, drawn from the ranges
    random.randint would draw them from. */
module FireClock {
  import opened Common
  import opened Surface
  import Screen
  import Colors

  /** The ramp: five blank levels, then fourteen glyphs. */
  const FireChars: string := "     .+xXxXxXxXxXxX"
  const FireLevels: nat := 19
  const Hottest: nat := FireLevels - 1

  /** The ramp has FireLevels entries, blank exactly on the first five. */
  lemma FireCharsLayout()
    ensures |FireChars| == FireLevels
    ensures forall i :: 0 <= i < 5 ==> FireChars[i] == ' '
    ensures forall i :: 5 <= i < FireLevels ==> FireChars[i] != ' '
  {
  }

  // ---------------------------------------------------------------------
  // Heat grids

  type Heat = seq<seq<int>>

  /** h rows of w levels. */
  predicate IsHeat(b: Heat, w: nat, h: nat)
  {
    |b| == h && forall y :: 0 <= y < h ==> |b[y]| == w
  }

  /** Every level lies in [0, Hottest]. */
  predicate InRange(b: Heat, w: nat, h: nat)
  {
    IsHeat(b, w, h) && forall y, x :: 0 <= y < h && 0 <= x < w ==> 0 <= b[y][x] <= Hottest
  }

  /** The cells the spreading step never writes: the bottom row and the
      two side columns. */
  predicate Border(w: nat, h: nat, y: int, x: int)
  {
    y == h - 1 || x == 0 || x == w - 1
  }

  /** Every border cell is cold. */
  predicate ColdBorder(b: Heat, w: nat, h: nat)
    requires IsHeat(b, w, h)
  {
    forall y, x :: 0 <= y < h && 0 <= x < w && Border(w, h, y, x) ==> b[y][x] == 0
  }

  /** [[0] * width for _ in range(height)]. */
  function Zeros(w: nat, h: nat): (b: Heat)
    ensures InRange(b, w, h) && ColdBorder(b, w, h)
    ensures forall y, x :: 0 <= y < h && 0 <= x < w ==> b[y][x] == 0
  {
    seq(h, _ => seq(w, _ => 0))
  }

  function Set(b: Heat, x: nat, y: nat, v: int): Heat
    requires y < |b| && x < |b[y]|
  {
    b[y := b[y][x := v]]
  }

  lemma SetCells(b: Heat, w: nat, h: nat, x: nat, y: nat, v: int)
    requires IsHeat(b, w, h) && y < h && x < w
    ensures IsHeat(Set(b, x, y, v), w, h)
    ensures Set(b, x, y, v)[y][x] == v
    ensures forall j, i :: 0 <= j < h && 0 <= i < w && (j != y || i != x) ==> Set(b, x, y, v)[j][i] == b[j][i]
  {
  }

  // ---------------------------------------------------------------------
  // Feeding the fire

  /** The random bottom row: one level in [0, Hottest] per column. */
  predicate BottomDraw(bottom: seq<int>, w: nat)
  {
    |bottom| == w && forall x :: 0 <= x < w ==> 0 <= bottom[x] <= Hottest
  }

  /** The random hot points: (width * height // 20) // 10 of them, each in
      a column of the grid and in the lowest quarter of the rows. */
  predicate HotDraw(hot: seq<Pos>, w: nat, h: nat)
  {
    && |hot| == (w * h / 20) / 10
    && forall k :: 0 <= k < |hot| ==> 0 <= hot[k].0 < w && h * 3 / 4 <= hot[k].1 < h
  }

  /** Step 2: the bottom row replaced by the draw. */
  function FeedBottom(b: Heat, w: nat, h: nat, bottom: seq<int>): (r: Heat)
    requires IsHeat(b, w, h) && |bottom| == w && (w > 0 ==> h > 0)
    ensures IsHeat(r, w, h)
    ensures forall y, x :: 0 <= y < h && 0 <= x < w ==> r[y][x] == (if y == h - 1 then bottom[x] else b[y][x])
  {
    if h == 0 then b else b[h - 1 := bottom]
  }

  /** Step 3: each hot point, in order, set to the hottest level. */
  function Ignite(b: Heat, w: nat, h: nat, hot: seq<Pos>): (r: Heat)
    requires IsHeat(b, w, h) && HotOnGrid(hot, w, h)
    ensures IsHeat(r, w, h)
  {
    if hot == [] then b
    else
      var p := hot[|hot| - 1];
      var r := Ignite(b, w, h, hot[..|hot| - 1]);
      SetCells(r, w, h, p.0, p.1, Hottest);
      Set(r, p.0, p.1, Hottest)
  }

  /** The hot points lie on the grid (the count is not needed here). */
  predicate HotOnGrid(hot: seq<Pos>, w: nat, h: nat)
  {
    forall k :: 0 <= k < |hot| ==> 0 <= hot[k].0 < w && 0 <= hot[k].1 < h
  }

  /** After igniting, a cell is hottest if some point hit it and keeps its
      level otherwise. */
  lemma {:induction false} IgniteEffect(b: Heat, w: nat, h: nat, hot: seq<Pos>, y: nat, x: nat)
    requires IsHeat(b, w, h) && HotOnGrid(hot, w, h) && y < h && x < w
    ensures Ignite(b, w, h, hot)[y][x] == (if (x, y) in hot then Hottest else b[y][x])
  {
    if hot != [] {
      var p := hot[|hot| - 1];
      IgniteEffect(b, w, h, hot[..|hot| - 1], y, x);
      SetCells(Ignite(b, w, h, hot[..|hot| - 1]), w, h, p.0, p.1, Hottest);
      assert hot == hot[..|hot| - 1] + [p];
    }
  }

  /** Steps 2 and 3 together. */
  function Feed(b: Heat, w: nat, h: nat, bottom: seq<int>, hot: seq<Pos>): (r: Heat)
    requires IsHeat(b, w, h) && |bottom| == w && (w > 0 ==> h > 0) && HotOnGrid(hot, w, h)
    ensures IsHeat(r, w, h)
  {
    Ignite(FeedBottom(b, w, h, bottom), w, h, hot)
  }

  /** Feeding keeps every level in range: the bottom draw and the hot
      level both lie in [0, Hottest]. */
  lemma FeedInRange(b: Heat, w: nat, h: nat, bottom: seq<int>, hot: seq<Pos>)
    requires InRange(b, w, h) && BottomDraw(bottom, w) && (w > 0 ==> h > 0) && HotOnGrid(hot, w, h)
    ensures InRange(Feed(b, w, h, bottom, hot), w, h)
  {
    forall y, x | 0 <= y < h && 0 <= x < w
      ensures 0 <= Feed(b, w, h, bottom, hot)[y][x] <= Hottest
    {
      IgniteEffect(FeedBottom(b, w, h, bottom), w, h, hot, y, x);
    }
  }

  /** A full draw places its points on the grid. */
  lemma HotDrawOnGrid(hot: seq<Pos>, w: nat, h: nat)
    requires HotDraw(hot, w, h)
    ensures HotOnGrid(hot, w, h)
  {
  }

  // ---------------------------------------------------------------------
  // Spreading

  /** The five-cell cross of an interior cell (y, x), its row and column
      neighbours clamped to the grid. */
  function CrossSum(b: Heat, w: nat, h: nat, y: int, x: int): int
    requires IsHeat(b, w, h) && 1 <= y < h && 1 <= x < w - 1
  {
    b[Max(0, y - 1)][x] + b[y][x - 1] + b[y][x] + b[y][x + 1] + b[Min(h - 1, y + 1)][x]
  }

  /** The new level of the cell above (y, x): the floor of the cross's
      mean, capped at the hottest level. */
  function Average(b: Heat, w: nat, h: nat, y: int, x: int): (a: int)
    requires IsHeat(b, w, h) && 1 <= y < h && 1 <= x < w - 1
    ensures a <= Hottest
    ensures a * 5 <= CrossSum(b, w, h, y, x)
  {
    Min(CrossSum(b, w, h, y, x) / 5, Hottest)
  }

  /** On levels in range the cap never binds: the mean of five levels of
      at most Hottest is itself at most Hottest, and it is never negative. */
  lemma AverageCapInactive(b: Heat, w: nat, h: nat, y: int, x: int)
    requires InRange(b, w, h) && 1 <= y < h && 1 <= x < w - 1
    ensures Average(b, w, h, y, x) == CrossSum(b, w, h, y, x) / 5
    ensures 0 <= Average(b, w, h, y, x) <= Hottest
  {
    assert 0 <= b[y][x - 1] <= Hottest && 0 <= b[y][x] <= Hottest && 0 <= b[y][x + 1] <= Hottest;
    assert 0 <= b[Max(0, y - 1)][x] <= Hottest && 0 <= b[Min(h - 1, y + 1)][x] <= Hottest;
  }

  /** The cell (y, x) is written by the spreading step, from the cross
      one row below it. */
  predicate Spreads(w: nat, h: nat, y: int, x: int)
  {
    0 <= y < h - 1 && 1 <= x < w - 1
  }

  /** Row j of the new back buffer: the interior columns of every row
      but the last take the average of the cross below them; every other
      cell keeps its old level. */
  function SpreadRow(b0: Heat, row: seq<int>, w: nat, h: nat, j: int): (r: seq<int>)
    requires IsHeat(b0, w, h) && |row| == w
    ensures |r| == w
  {
    seq(w, i requires 0 <= i < w => if Spreads(w, h, j, i) then Average(b0, w, h, j + 1, i) else row[i])
  }

  /** Step 4: the new back buffer, row by row. */
  function Spread(b0: Heat, b1: Heat, w: nat, h: nat): (r: Heat)
    requires IsHeat(b0, w, h) && IsHeat(b1, w, h)
    ensures IsHeat(r, w, h)
  {
    seq(h, j requires 0 <= j < h => SpreadRow(b0, b1[j], w, h, j))
  }

  /** Spreading keeps both halves of the fire's invariant: every level in
      range, and the unwritten border as cold as it was. */
  lemma SpreadInvariant(b0: Heat, b1: Heat, w: nat, h: nat)
    requires InRange(b0, w, h) && InRange(b1, w, h) && ColdBorder(b1, w, h)
    ensures InRange(Spread(b0, b1, w, h), w, h)
    ensures ColdBorder(Spread(b0, b1, w, h), w, h)
  {
    forall y, x | 0 <= y < h && 0 <= x < w
      ensures 0 <= Spread(b0, b1, w, h)[y][x] <= Hottest
      ensures Border(w, h, y, x) ==> Spread(b0, b1, w, h)[y][x] == 0
    {
      if Spreads(w, h, y, x) {
        AverageCapInactive(b0, w, h, y + 1, x);
      }
    }
  }

  // ---------------------------------------------------------------------
  // Drawing

  /** z = 10 - int(level / FIRE_LEVELS * 12): hotter is nearer. */
  function FireDepth(level: int): int
  {
    10 - Trunc((level as real / FireLevels as real) * 12.0)
  }

  /** On the drawn levels the depth is the integer formula and lies in
      [-1, 7]. */
  lemma FireDepthRange(level: int)
    requires 5 <= level <= Hottest
    ensures FireDepth(level) == 10 - (12 * level) / 19
    ensures -1 <= FireDepth(level) <= 7
  {
    var r := (level as real / FireLevels as real) * 12.0;
    var q := (12 * level) / 19;
    assert r == (12 * level) as real / 19.0;
    assert q as real <= r < (q + 1) as real by {
      assert 19 * q <= 12 * level < 19 * (q + 1);
      assert (19 * q) as real <= (12 * level) as real < (19 * (q + 1)) as real;
    }
    assert r.Floor == q;
  }

  /** What one cell of the back buffer draws: its ramp glyph when the
      level is positive and that glyph is not blank. */
  function CellWrites(level: int, x: int, y: int, gradient: seq<string>): (ws: seq<Write>)
    requires |gradient| > 0
  {
    if level > 0 && FireChars[Min(level, |FireChars| - 1)] != ' ' then
      var z := FireDepth(level) as real;
      [Write(x, y, [FireChars[Min(level, |FireChars| - 1)]], z, Some(Colors.DepthColor(gradient, z, -5.0, 12.0)), 1.0)]
    else []
  }

  /** A level in range is drawn exactly when it is at least 5, as its ramp
      glyph at its fire depth. */
  lemma DrawnExactlyWhenHot(level: int, x: int, y: int, gradient: seq<string>)
    requires 0 <= level <= Hottest && |gradient| > 0
    ensures CellWrites(level, x, y, gradient) != [] <==> level >= 5
    ensures level >= 5 ==> (CellWrites(level, x, y, gradient)[0].glyph == [FireChars[level]]
                            && CellWrites(level, x, y, gradient)[0].z == FireDepth(level) as real)
  {
    FireCharsLayout();
  }

  /** The writes of the first n cells of row y. */
  function RowWrites(row: seq<int>, y: int, n: nat, gradient: seq<string>): seq<Write>
    requires n <= |row| && |gradient| > 0
  {
    if n == 0 then [] else RowWrites(row, y, n - 1, gradient) + CellWrites(row[n - 1], n - 1, y, gradient)
  }

  /** Step 5: the writes of the first n rows, in row-major order. */
  function FireWrites(b: Heat, w: nat, n: nat, gradient: seq<string>): seq<Write>
    requires n <= |b| && (forall y :: 0 <= y < n ==> |b[y]| == w) && |gradient| > 0
  {
    if n == 0 then [] else FireWrites(b, w, n - 1, gradient) + RowWrites(b[n - 1], n - 1, w, gradient)
  }

  /** The writes of the bottom-row pass over its first n columns: an 'X'
      at depth -3 in the accent colour where the level exceeds 5. */
  function BottomWrites(row: seq<int>, y: int, n: nat, accent: string): seq<Write>
    requires n <= |row|
  {
    if n == 0 then []
    else BottomWrites(row, y, n - 1, accent) + (if row[n - 1] > 5 then [Write(n - 1, y, "X", -3.0, Some(accent), 1.0)] else [])
  }

  /** The bottom row of the back buffer is never written and stays cold,
      so the bottom-row pass never draws anything. */
  lemma {:induction false} BottomPassDrawsNothing(row: seq<int>, y: int, n: nat, accent: string)
    requires n <= |row| && forall x :: 0 <= x < |row| ==> row[x] == 0
    ensures BottomWrites(row, y, n, accent) == []
  {
    if n > 0 {
      BottomPassDrawsNothing(row, y, n - 1, accent);
    }
  }

  // ---------------------------------------------------------------------
  // The fire state

  class FireState {
    var started: bool
    var buffer0: Heat
    var buffer1: Heat
    var w: nat
    var h: nat

    /** Once started, both buffers have the recorded size, every level is
        in range and the back buffer's border is cold. */
    ghost predicate Valid()
      reads this
    {
      started ==> InRange(buffer0, w, h) && InRange(buffer1, w, h) && ColdBorder(buffer1, w, h)
    }

    /** FireState(): no buffers yet, size 0 x 0. */
    constructor ()
      ensures Valid() && !started && w == 0 && h == 0
    {
      started := false;
      buffer0 := [];
      buffer1 := [];
      w := 0;
      h := 0;
    }

    /** The buffers are rebuilt on the first frame and on a size change. */
    predicate NeedsReset(width: nat, height: nat)
      reads this
    {
      !started || w != width || h != height
    }

    /** Steps 1 to 4 of a frame: reset if needed, copy the back buffer to
        the front, feed the front buffer and spread it into the back
        buffer. */
    method Advance(width: nat, height: nat, bottom: seq<int>, hot: seq<Pos>)
      requires Valid() && (width > 0 ==> height > 0)
      requires BottomDraw(bottom, width) && HotDraw(hot, width, height)
      modifies this
      ensures Valid() && started && w == width && h == height
      ensures var prev := if old(NeedsReset(width, height)) then Zeros(width, height) else old(buffer1);
        && buffer0 == Feed(prev, width, height, bottom, hot)
        && buffer1 == Spread(buffer0, prev, width, height)
    {
      if NeedsReset(width, height) {
        w, h := width, height;
        buffer0 := Zeros(width, height);
        buffer1 := Zeros(width, height);
        started := true;
      }
      CopyBack();
      Stoke(bottom, hot);
      SpreadUp();
    }

    /** Step 1: the front buffer becomes a cell-by-cell copy of the back
        buffer. */
    method CopyBack()
      requires Valid() && started
      modifies this
      ensures started && w == old(w) && h == old(h) && buffer1 == old(buffer1)
      ensures buffer0 == buffer1 && Valid()
    {
      for y := 0 to h
        invariant started && w == old(w) && h == old(h) && buffer1 == old(buffer1)
        invariant IsHeat(buffer0, w, h)
        invariant forall j, i :: 0 <= j < h && 0 <= i < w && j < y ==> buffer0[j][i] == buffer1[j][i]
      {
        for x := 0 to w
          invariant started && w == old(w) && h == old(h) && buffer1 == old(buffer1)
          invariant IsHeat(buffer0, w, h)
          invariant forall j, i :: 0 <= j < h && 0 <= i < w && (j < y || (j == y && i < x)) ==> buffer0[j][i] == buffer1[j][i]
        {
          SetCells(buffer0, w, h, x, y, buffer1[y][x]);
          buffer0 := Set(buffer0, x, y, buffer1[y][x]);
        }
      }
      SameHeat(buffer0, buffer1, w, h);
    }

    /** Steps 2 and 3: the random bottom row, then the random hot points. */
    method Stoke(bottom: seq<int>, hot: seq<Pos>)
      requires Valid() && started && (w > 0 ==> h > 0)
      requires BottomDraw(bottom, w) && HotDraw(hot, w, h)
      modifies this
      ensures started && w == old(w) && h == old(h) && buffer1 == old(buffer1)
      ensures buffer0 == Feed(old(buffer0), w, h, bottom, hot) && Valid()
    {
      ghost var b := buffer0;
      for x := 0 to w
        invariant started && w == old(w) && h == old(h) && buffer1 == old(buffer1)
        invariant IsHeat(buffer0, w, h)
        invariant forall j, i :: 0 <= j < h - 1 && 0 <= i < w ==> buffer0[j][i] == b[j][i]
        invariant forall j, i :: j == h - 1 && 0 <= i < x ==> buffer0[j][i] == bottom[i]
        invariant forall j, i :: j == h - 1 && x <= i < w ==> buffer0[j][i] == b[j][i]
      {
        SetCells(buffer0, w, h, x, h - 1, bottom[x]);
        buffer0 := Set(buffer0, x, h - 1, bottom[x]);
      }
      SameHeat(buffer0, FeedBottom(b, w, h, bottom), w, h);
      ghost var fed := buffer0;
      HotDrawOnGrid(hot, w, h);
      for k := 0 to |hot|
        invariant started && w == old(w) && h == old(h) && buffer1 == old(buffer1)
        invariant buffer0 == Ignite(fed, w, h, hot[..k])
      {
        assert hot[..k + 1][..k] == hot[..k];
        var rx, ry := hot[k].0, hot[k].1;
        buffer0 := Set(buffer0, rx, ry, Hottest);
      }
      assert hot[..|hot|] == hot;
      FeedInRange(b, w, h, bottom, hot);
    }

    /** Step 4: for 1 <= y < h and 1 <= x < w - 1 the cell above (y, x) in
        the back buffer takes the capped average of the cross at (y, x) in
        the front buffer. */
    method SpreadUp()
      requires Valid() && started
      modifies this
      ensures started && w == old(w) && h == old(h) && buffer0 == old(buffer0)
      ensures buffer1 == Spread(buffer0, old(buffer1), w, h) && Valid()
    {
      ghost var b1 := buffer1;
      var y := 1;
      while y < h
        invariant 1 <= y <= Max(1, h)
        invariant started && w == old(w) && h == old(h) && buffer0 == old(buffer0)
        invariant IsHeat(buffer1, w, h)
        invariant forall j :: 0 <= j < y - 1 ==> buffer1[j] == SpreadRow(buffer0, b1[j], w, h, j)
        invariant forall j :: y - 1 <= j < h ==> buffer1[j] == b1[j]
      {
        ghost var start := buffer1;
        ghost var above := y - 1;
        var x := 1;
        while x < w - 1
          invariant 1 <= x <= Max(1, w - 1)
          invariant started && w == old(w) && h == old(h) && buffer0 == old(buffer0)
          invariant |buffer1| == h && forall j :: 0 <= j < h && j != above ==> buffer1[j] == start[j]
          invariant |buffer1[above]| == w
          invariant forall i :: 1 <= i < x ==> buffer1[above][i] == Average(buffer0, w, h, y, i)
          invariant forall i :: 0 <= i < w && !(1 <= i < x) ==> buffer1[above][i] == b1[above][i]
        {
          var top := buffer0[Max(0, y - 1)][x];
          var left := buffer0[y][x - 1];
          var center := buffer0[y][x];
          var right := buffer0[y][x + 1];
          var bottom := buffer0[Min(h - 1, y + 1)][x];
          var average := (top + left + center + right + bottom) / 5;
          average := Min(average, Hottest);
          buffer1 := Set(buffer1, x, y - 1, average);
          x := x + 1;
        }
        assert buffer1[y - 1] == SpreadRow(buffer0, b1[y - 1], w, h, y - 1);
        y := y + 1;
      }
      assert forall j :: 0 <= j < h ==> buffer1[j] == Spread(buffer0, b1, w, h)[j];
      assert buffer1 == Spread(buffer0, b1, w, h);
      SpreadInvariant(buffer0, b1, w, h);
    }

    /** render: one frame of the fire, then its glyphs and the bottom-row
        pass drawn into the buffer. Returns the engine's rotation pair. */
    method Render(buffer: Screen.ScreenBuffer, width: nat, height: nat, tm: Colors.ThemeManager,
                  bottom: seq<int>, hot: seq<Pos>)
      returns (rot: (int, int))
      requires Valid() && buffer.Valid() && tm.Valid() && (width > 0 ==> height > 0)
      requires BottomDraw(bottom, width) && HotDraw(hot, width, height)
      modifies this, buffer
      ensures Valid() && buffer.Valid() && started && w == width && h == height
      ensures var prev := if old(NeedsReset(width, height)) then Zeros(width, height) else old(buffer1);
        && buffer0 == Feed(prev, width, height, bottom, hot)
        && buffer1 == Spread(buffer0, prev, width, height)
      ensures buffer.cells == Plot(old(buffer.cells), buffer.width, buffer.height,
                                   FireWrites(buffer1, width, height, tm.gradient))
      ensures rot == (-18, 12)
    {
      Advance(width, height, bottom, hot);
      Draw(buffer, tm);
      rot := (-18, 12);
    }

    /** Steps 5 and 6 of render: the fire pass, then the bottom-row pass,
        which draws nothing because the bottom row of the back buffer is
        never written. */
    method Draw(buffer: Screen.ScreenBuffer, tm: Colors.ThemeManager)
      requires Valid() && started && buffer.Valid() && tm.Valid()
      modifies buffer
      ensures buffer.Valid()
      ensures buffer.cells == Plot(old(buffer.cells), buffer.width, buffer.height, FireWrites(buffer1, w, h, tm.gradient))
    {
      var accent := tm.GetAccent();
      DrawFire(buffer, buffer1, w, h, tm.gradient);
      if h > 0 {
        ghost var drawn := buffer.cells;
        var row := buffer1[h - 1];
        ColdBottomRow(buffer1, w, h, row);
        BottomPassDrawsNothing(row, h - 1, w, accent);
        DrawBottom(buffer, row, h - 1, w, accent);
        assert buffer.cells == Plot(drawn, buffer.width, buffer.height, []);
      }
    }
  }

  lemma ColdBottomRow(b: Heat, w: nat, h: nat, row: seq<int>)
    requires IsHeat(b, w, h) && ColdBorder(b, w, h) && h > 0 && row == b[h - 1]
    ensures forall x :: 0 <= x < |row| ==> row[x] == 0
  {
    forall x | 0 <= x < |row|
      ensures row[x] == 0
    {
      assert Border(w, h, h - 1, x);
    }
  }

  lemma SameHeat(a: Heat, b: Heat, w: nat, h: nat)
    requires IsHeat(a, w, h) && IsHeat(b, w, h)
    requires forall y, x :: 0 <= y < h && 0 <= x < w ==> a[y][x] == b[y][x]
    ensures a == b
  {
    forall y | 0 <= y < h
      ensures a[y] == b[y]
    {
    }
  }

  /** Step 5 of render: every cell of the back buffer, row by row. */
  method DrawFire(buffer: Screen.ScreenBuffer, b1: Heat, width: nat, height: nat, gradient: seq<string>)
    requires buffer.Valid() && |gradient| > 0 && IsHeat(b1, width, height)
    modifies buffer
    ensures buffer.Valid()
    ensures buffer.cells == Plot(old(buffer.cells), buffer.width, buffer.height, FireWrites(b1, width, height, gradient))
  {
    ghost var c0 := buffer.cells;
    ghost var done: seq<Write> := [];
    var bw, bh := buffer.width, buffer.height;
    for y := 0 to height
      invariant buffer.Valid()
      invariant done == FireWrites(b1, width, y, gradient)
      invariant buffer.cells == Plot(c0, bw, bh, done)
    {
      ghost var row := RowWrites(b1[y], y, width, gradient);
      ghost var before := buffer.cells;
      DrawFireRow(buffer, b1[y], y, gradient);
      assert buffer.cells == Plot(c0, bw, bh, done + row) by {
        assert buffer.cells == Plot(before, bw, bh, row);
        PlotAppend(c0, bw, bh, done, row);
      }
      done := done + row;
    }
  }

  /** One row of step 5, left to right. */
  method DrawFireRow(buffer: Screen.ScreenBuffer, row: seq<int>, y: int, gradient: seq<string>)
    requires buffer.Valid() && |gradient| > 0
    modifies buffer
    ensures buffer.Valid()
    ensures buffer.cells == Plot(old(buffer.cells), buffer.width, buffer.height, RowWrites(row, y, |row|, gradient))
  {
    ghost var c0 := buffer.cells;
    var bw, bh := buffer.width, buffer.height;
    for x := 0 to |row|
      invariant buffer.Valid()
      invariant buffer.cells == Plot(c0, bw, bh, RowWrites(row, y, x, gradient))
    {
      ghost var done := RowWrites(row, y, x, gradient);
      ghost var cw := CellWrites(row[x], x, y, gradient);
      assert RowWrites(row, y, x + 1, gradient) == done + cw;
      DrawCellStep(c0, bw, bh, done, row[x], x, y, gradient);
      var level := row[x];
      if level > 0 {
        var charIdx := Min(level, |FireChars| - 1);
        var ch := FireChars[charIdx];
        if ch != ' ' {
          var z := FireDepth(level);
          // get_color_for_depth(z, -5, 12) of the theme whose gradient this is
          var color := Colors.DepthColor(gradient, z as real, -5.0, 12.0);
          assert cw[0] == Write(x, y, [ch], z as real, Some(color), 1.0);
          var _ := buffer.SetPixelAt(x, y, [ch], z as real, Some(color), 1.0);
        }
      }
    }
  }

  /** One cell of the fire pass: a blank cell leaves the grid as it is,
      any other is one set_pixel. */
  lemma DrawCellStep(c0: Grid, bw: nat, bh: nat, done: seq<Write>, level: int, x: int, y: int, gradient: seq<string>)
    requires IsGrid(c0, bw, bh) && |gradient| > 0
    ensures CellWrites(level, x, y, gradient) == [] ==>
      Plot(c0, bw, bh, done + CellWrites(level, x, y, gradient)) == Plot(c0, bw, bh, done)
    ensures CellWrites(level, x, y, gradient) != [] ==>
      Plot(c0, bw, bh, done + CellWrites(level, x, y, gradient))
      == Surface.SetPixel(Plot(c0, bw, bh, done), bw, bh, CellWrites(level, x, y, gradient)[0]).0
  {
    var cw := CellWrites(level, x, y, gradient);
    if cw == [] {
      assert done + cw == done;
    } else {
      assert cw == [cw[0]];
      PlotSnoc(c0, bw, bh, done, cw[0]);
    }
  }

  /** Step 6 of render: an 'X' in the accent colour wherever the bottom
      row of the back buffer is above level 5. */
  method DrawBottom(buffer: Screen.ScreenBuffer, row: seq<int>, y: int, width: nat, accent: string)
    requires buffer.Valid() && |row| == width
    modifies buffer
    ensures buffer.Valid()
    ensures buffer.cells == Plot(old(buffer.cells), buffer.width, buffer.height, BottomWrites(row, y, width, accent))
  {
    ghost var c0 := buffer.cells;
    var bw, bh := buffer.width, buffer.height;
    for x := 0 to width
      invariant buffer.Valid()
      invariant buffer.cells == Plot(c0, bw, bh, BottomWrites(row, y, x, accent))
    {
      var level := row[x];
      if level > 5 {
        assert BottomWrites(row, y, x + 1, accent) == BottomWrites(row, y, x, accent) + [Write(x, y, "X", -3.0, Some(accent), 1.0)];
        PlotSnoc(c0, bw, bh, BottomWrites(row, y, x, accent), Write(x, y, "X", -3.0, Some(accent), 1.0));
        var _ := buffer.SetPixelAt(x, y, "X", -3.0, Some(accent), 1.0);
      } else {
        assert BottomWrites(row, y, x + 1, accent) == BottomWrites(row, y, x, accent) + [];
        assert BottomWrites(row, y, x, accent) + [] == BottomWrites(row, y, x, accent);
      }
    }
  }
}
