/** The life timer (animations/time/t_life_timer.py): Conway's Game of
    Life on an unbounded plane of (x, y) positions, where the pixels of the
    time string form a "sticky" mask on which cells survive and are born
    more easily. Live cells carry an age in [0, 1]; cells that die leave
    a trail that fades by 0.05 a frame. Randomness is a parameter: the
    seeding draw and the birth draw on the mask are functions of the
    position, holding the value random.random() would return there. */
module LifeTimer {
  import opened Common
  import opened Surface
  import Screen
  import Colors
  import opened TextRender
  import ClockMask

  // ---------------------------------------------------------------------
  // Neighbourhoods

  /** q lies in the 3 x 3 block centred on p. */
  predicate Near(p: Pos, q: Pos)
  {
    -1 <= q.0 - p.0 <= 1 && -1 <= q.1 - p.1 <= 1
  }

  /** The 3 x 3 block centred on p. */
  function Block(p: Pos): set<Pos>
  {
    BlockPart(p, 3)
  }

  /** The first n positions of row dy of the block around p, dx running
      from -1. */
  function RowPart(p: Pos, dy: int, n: nat): set<Pos>
  {
    if n == 0 then {} else RowPart(p, dy, n - 1) + {(p.0 + n - 2, p.1 + dy)}
  }

  /** The first m rows of the block around p, dy running from -1. */
  function BlockPart(p: Pos, m: nat): set<Pos>
  {
    if m == 0 then {} else BlockPart(p, m - 1) + RowPart(p, m - 2, 3)
  }

  lemma BlockMembers(p: Pos)
    ensures forall q :: q in Block(p) <==> Near(p, q)
  {
    RowPartThree(p, -1);
    RowPartThree(p, 0);
    RowPartThree(p, 1);
    assert BlockPart(p, 1) == RowPart(p, -1, 3);
    assert BlockPart(p, 2) == RowPart(p, -1, 3) + RowPart(p, 0, 3);
    assert Block(p) == RowPart(p, -1, 3) + RowPart(p, 0, 3) + RowPart(p, 1, 3);
  }

  lemma RowPartThree(p: Pos, dy: int)
    ensures forall q :: q in RowPart(p, dy, 3) <==> q.1 == p.1 + dy && -1 <= q.0 - p.0 <= 1
  {
    assert RowPart(p, dy, 1) == {(p.0 - 1, p.1 + dy)};
    assert RowPart(p, dy, 2) == {(p.0 - 1, p.1 + dy), (p.0, p.1 + dy)};
    assert RowPart(p, dy, 3) == {(p.0 - 1, p.1 + dy), (p.0, p.1 + dy), (p.0 + 1, p.1 + dy)};
  }

  /** The candidates of a step: every live position and every position
      next to one. */
  function CandidateSet(live: set<Pos>): set<Pos>
  {
    set p, q | p in live && q in Block(p) :: q
  }

  /** The candidate set holds exactly the positions within one step of a
      live one, the live ones included. */
  lemma CandidateMembers(live: set<Pos>)
    ensures forall q :: q in CandidateSet(live) <==> exists p :: p in live && Near(p, q)
    ensures live <= CandidateSet(live)
  {
    forall p | p in live
      ensures forall q :: q in Block(p) <==> Near(p, q)
    {
      BlockMembers(p);
    }
    LiveAreCandidates(live);
  }

  lemma CandidateSetAdd(s: set<Pos>, p: Pos)
    ensures CandidateSet(s + {p}) == CandidateSet(s) + Block(p)
  {
  }

  /** The loops that collect the candidates: the live positions, then the
      block of each one. */
  method Candidates(cells: map<Pos, real>) returns (cand: set<Pos>)
    ensures cand == CandidateSet(cells.Keys)
  {
    cand := cells.Keys;
    var todo := cells.Keys;
    assert cells.Keys - todo == {};
    while todo != {}
      invariant todo <= cells.Keys
      invariant cand == cells.Keys + CandidateSet(cells.Keys - todo)
      decreases |todo|
    {
      var p :| p in todo;
      ghost var done := cells.Keys - todo;
      cand := AddBlock(cand, p);
      todo := todo - {p};
      assert cells.Keys - todo == done + {p};
      CandidateSetAdd(done, p);
    }
    assert cells.Keys - todo == cells.Keys;
    LiveAreCandidates(cells.Keys);
  }

  lemma LiveAreCandidates(live: set<Pos>)
    ensures live <= CandidateSet(live)
  {
    forall p | p in live
      ensures p in CandidateSet(live)
    {
      BlockMembers(p);
      assert p in Block(p);
    }
  }

  /** The two loops over dy and dx for one live position. */
  method AddBlock(cand: set<Pos>, p: Pos) returns (added: set<Pos>)
    ensures added == cand + Block(p)
  {
    added := cand;
    for dy := -1 to 2
      invariant added == cand + BlockPart(p, dy + 1)
    {
      for dx := -1 to 2
        invariant added == cand + BlockPart(p, dy + 1) + RowPart(p, dy, dx + 1)
      {
        added := added + {(p.0 + dx, p.1 + dy)};
      }
    }
  }

  // ---------------------------------------------------------------------
  // Counting neighbours

  /** The eight neighbour offsets, in the order of the generator (dy
      outer, dx inner, the centre skipped). */
  const Offsets: seq<Pos> := [(-1, -1), (0, -1), (1, -1), (-1, 0), (1, 0), (-1, 1), (0, 1), (1, 1)]

  function Shift(p: Pos, d: Pos): Pos
  {
    (p.0 + d.0, p.1 + d.1)
  }

  lemma OffsetsDistinct(i: nat, j: nat)
    requires i < j < |Offsets|
    ensures Offsets[i] != Offsets[j]
  {
  }

  /** How many of the first n neighbours of p are live. */
  function CountFirst(live: set<Pos>, p: Pos, n: nat): nat
    requires n <= |Offsets|
  {
    if n == 0 then 0
    else CountFirst(live, p, n - 1) + (if Shift(p, Offsets[n - 1]) in live then 1 else 0)
  }

  /** The neighbour count of the generator expression. */
  function Count(live: set<Pos>, p: Pos): nat
  {
    CountFirst(live, p, |Offsets|)
  }

  /** The live ones among the first n neighbours. */
  function LiveFirst(live: set<Pos>, p: Pos, n: nat): set<Pos>
    requires n <= |Offsets|
  {
    if n == 0 then {}
    else LiveFirst(live, p, n - 1) + (if Shift(p, Offsets[n - 1]) in live then {Shift(p, Offsets[n - 1])} else {})
  }

  /** The live positions next to p, p itself excluded. */
  function LiveNeighbours(live: set<Pos>, p: Pos): set<Pos>
  {
    set q | q in live && Near(p, q) && q != p
  }

  /** A later neighbour is not among the earlier ones. */
  lemma {:induction false} LaterNotEarlier(live: set<Pos>, p: Pos, m: nat, j: nat)
    requires m <= j < |Offsets|
    ensures Shift(p, Offsets[j]) !in LiveFirst(live, p, m)
  {
    if m > 0 {
      LaterNotEarlier(live, p, m - 1, j);
      OffsetsDistinct(m - 1, j);
    }
  }

  lemma {:induction false} CountFirstIsSize(live: set<Pos>, p: Pos, n: nat)
    requires n <= |Offsets|
    ensures CountFirst(live, p, n) == |LiveFirst(live, p, n)|
  {
    if n > 0 {
      CountFirstIsSize(live, p, n - 1);
      LaterNotEarlier(live, p, n - 1, n - 1);
    }
  }

  /** The neighbours of p are exactly the eight shifts by Offsets. */
  lemma {:induction false} LiveFirstMembers(live: set<Pos>, p: Pos, n: nat)
    requires n <= |Offsets|
    ensures forall q :: q in LiveFirst(live, p, n) <==> q in live && exists k :: 0 <= k < n && q == Shift(p, Offsets[k])
  {
    if n > 0 {
      LiveFirstMembers(live, p, n - 1);
    }
  }

  /** The count is the number of live cells among the eight neighbours,
      so at most 8. */
  lemma CountIsLiveNeighbours(live: set<Pos>, p: Pos)
    ensures Count(live, p) == |LiveNeighbours(live, p)|
    ensures Count(live, p) <= 8
  {
    CountFirstIsSize(live, p, 8);
    LiveFirstMembers(live, p, 8);
    forall q | q in LiveNeighbours(live, p)
      ensures q in LiveFirst(live, p, 8)
    {
      var k := NeighbourIndex(p, q);
    }
    forall q | q in LiveFirst(live, p, 8)
      ensures q in LiveNeighbours(live, p)
    {
      var k :| 0 <= k < 8 && q == Shift(p, Offsets[k]);
      assert Near(p, q) && q != p by {
        OffsetsNear(k);
      }
    }
    assert LiveFirst(live, p, 8) == LiveNeighbours(live, p);
    CountFirstAtMost(live, p, 8);
  }

  /** Each neighbour of p is one of the eight shifts. */
  lemma NeighbourIndex(p: Pos, q: Pos) returns (k: nat)
    requires Near(p, q) && q != p
    ensures k < |Offsets| && q == Shift(p, Offsets[k])
  {
    var dx, dy := q.0 - p.0, q.1 - p.1;
    if dy == -1 {
      k := dx + 1;
    } else if dy == 0 {
      k := if dx == -1 then 3 else 4;
    } else {
      k := dx + 6;
    }
  }

  /** Each of the eight shifts is a neighbour. */
  lemma OffsetsNear(k: nat)
    requires k < |Offsets|
    ensures -1 <= Offsets[k].0 <= 1 && -1 <= Offsets[k].1 <= 1 && Offsets[k] != (0, 0)
  {
  }

  lemma {:induction false} CountFirstAtMost(live: set<Pos>, p: Pos, n: nat)
    requires n <= |Offsets|
    ensures CountFirst(live, p, n) <= n
  {
    if n > 0 {
      CountFirstAtMost(live, p, n - 1);
    }
  }

  // ---------------------------------------------------------------------
  // The rules

  /** The fate of one candidate: Some(age) if it is live next frame,
      None otherwise. On the mask a live cell survives with 1 to 6
      neighbours and a dead one is born with 2 to 5, or else when the
      birth draw is below 0.12; elsewhere Conway's rules hold. A survivor
      ages by 0.1 up to 1.0; a newborn starts at 0.0. */
  function Fate(alive: bool, age: real, inMask: bool, count: nat, draw: real): Option<real>
  {
    var survives := alive && (if inMask then 1 <= count <= 6 else count == 2 || count == 3);
    var born := !alive && (if inMask then 2 <= count <= 5 || draw < 0.12 else count == 3);
    if survives then Some(MinReal(age + 0.1, 1.0))
    else if born then Some(0.0)
    else None
  }

  /** Off the mask: a live cell survives exactly with two or three
      neighbours, a dead one is born exactly with three. */
  lemma ConwayOffMask(age: real, count: nat, draw: real)
    ensures Fate(true, age, false, count, draw).Some? <==> count == 2 || count == 3
    ensures Fate(false, age, false, count, draw).Some? <==> count == 3
    ensures Fate(false, age, false, count, draw) == Some(0.0) || Fate(false, age, false, count, draw) == None
  {
  }

  /** On the mask: a live cell survives exactly with one to six
      neighbours; a dead one is born exactly with two to five neighbours
      or a draw below 0.12. */
  lemma StickyOnMask(age: real, count: nat, draw: real)
    ensures Fate(true, age, true, count, draw).Some? <==> 1 <= count <= 6
    ensures Fate(false, age, true, count, draw).Some? <==> 2 <= count <= 5 || draw < 0.12
  {
  }

  /** The mask only makes life easier: whatever lives off the mask also
      lives on it. */
  lemma MaskIsSticky(alive: bool, age: real, count: nat, draw: real)
    ensures Fate(alive, age, false, count, draw).Some? ==> Fate(alive, age, true, count, draw).Some?
  {
  }

  /** Ages stay in [0, 1]. */
  lemma FateAgeInRange(alive: bool, age: real, inMask: bool, count: nat, draw: real)
    requires 0.0 <= age <= 1.0
    ensures Fate(alive, age, inMask, count, draw).Some? ==> 0.0 <= Fate(alive, age, inMask, count, draw).value <= 1.0
    ensures alive && Fate(alive, age, inMask, count, draw).Some? ==>
      Fate(alive, age, inMask, count, draw).value == MinReal(age + 0.1, 1.0)
  {
  }

  /** The fate of position q given the live cells, the mask and the
      birth draws. */
  function FateAt(cells: map<Pos, real>, mask: set<Pos>, draws: Pos -> real, q: Pos): Option<real>
  {
    Fate(q in cells, if q in cells then cells[q] else 0.0, q in mask, Count(cells.Keys, q), draws(q))
  }

  /** The next generation among the positions of s. */
  function NextOn(cells: map<Pos, real>, mask: set<Pos>, draws: Pos -> real, s: set<Pos>): map<Pos, real>
  {
    map q | q in s && FateAt(cells, mask, draws, q).Some? :: FateAt(cells, mask, draws, q).value
  }

  /** The next generation: every candidate whose fate is to live. */
  function NextCells(cells: map<Pos, real>, mask: set<Pos>, draws: Pos -> real): map<Pos, real>
  {
    NextOn(cells, mask, draws, CandidateSet(cells.Keys))
  }

  /** The live cells among s that die. */
  function DiedOn(cells: map<Pos, real>, mask: set<Pos>, draws: Pos -> real, s: set<Pos>): set<Pos>
  {
    set q | q in s && q in cells && FateAt(cells, mask, draws, q).None?
  }

  /** A marked trail, fade 1.0, at each position of s. */
  function FreshTrails(s: set<Pos>): map<Pos, real>
  {
    map q | q in s :: 1.0
  }

  /** The fade pass: trails above 0.1 lose 0.05, the rest are dropped. */
  function Faded(trails: map<Pos, real>): map<Pos, real>
  {
    FadedOn(trails, trails.Keys)
  }

  /** No cell appears from nowhere: every position live next frame lies
      within one step of a live cell now. */
  lemma NextIsNearLive(cells: map<Pos, real>, mask: set<Pos>, draws: Pos -> real)
    ensures forall q :: q in NextCells(cells, mask, draws) ==> exists p :: p in cells && Near(p, q)
  {
    CandidateMembers(cells.Keys);
  }

  /** Every live cell either lives on or leaves a trail, never both. */
  lemma LiveOrTrail(cells: map<Pos, real>, mask: set<Pos>, draws: Pos -> real)
    ensures forall q :: q in cells ==>
      (q in NextCells(cells, mask, draws) <==> q !in DiedOn(cells, mask, draws, CandidateSet(cells.Keys)))
  {
    LiveAreCandidates(cells.Keys);
    var cand := CandidateSet(cells.Keys);
    forall q | q in cells
      ensures q in NextCells(cells, mask, draws) <==> q !in DiedOn(cells, mask, draws, cand)
    {
      assert q in cand;
      var f := FateAt(cells, mask, draws, q);
      assert q in NextOn(cells, mask, draws, cand) <==> f.Some?;
      assert q in DiedOn(cells, mask, draws, cand) <==> f.None?;
    }
  }

  // ---------------------------------------------------------------------
  // Ranges kept

  predicate AgesInRange(cells: map<Pos, real>)
  {
    forall q :: q in cells ==> 0.0 <= cells[q] <= 1.0
  }

  /** Every trail at rest has a fade in (0.05, 0.95]. */
  predicate FadesInRange(trails: map<Pos, real>)
  {
    forall q :: q in trails ==> 0.05 < trails[q] <= 0.95
  }

  lemma NextKeepsAges(cells: map<Pos, real>, mask: set<Pos>, draws: Pos -> real)
    requires AgesInRange(cells)
    ensures AgesInRange(NextCells(cells, mask, draws))
  {
    var next := NextCells(cells, mask, draws);
    forall q | q in next
      ensures 0.0 <= next[q] <= 1.0
    {
      var age := if q in cells then cells[q] else 0.0;
      FateAgeInRange(q in cells, age, q in mask, Count(cells.Keys, q), draws(q));
    }
  }

  /** Fresh trails at 1.0 and resting trails in range fade back into
      range. */
  lemma FadeKeepsRange(trails: map<Pos, real>, dead: set<Pos>)
    requires FadesInRange(trails)
    ensures FadesInRange(Faded(trails + FreshTrails(dead)))
  {
  }

  // ---------------------------------------------------------------------
  // Seeding and the mask

  /** The positions of a width x height screen. */
  function OnScreen(width: int, height: int): set<Pos>
  {
    set x, y | 0 <= x < width && 0 <= y < height :: (x, y)
  }

  /** The seeding on a size change: every position whose draw is below
      0.08 holds a newborn cell. */
  function Seeded(width: int, height: int, seed: Pos -> real): (cells: map<Pos, real>)
    ensures AgesInRange(cells)
    ensures forall q :: q in cells <==> 0 <= q.0 < width && 0 <= q.1 < height && seed(q) < 0.08
  {
    map q | q in OnScreen(width, height) && seed(q) < 0.08 :: 0.0
  }

  /** Where the time string is centred: (width - text_w) // 2 and
      (height - text_h) // 2. */
  function MaskOrigin(width: int, height: int, textW: int, textH: int): Pos
  {
    (FloorHalf(width - textW), FloorHalf(height - textH))
  }

  // ---------------------------------------------------------------------
  // Drawing

  /** A trail shows '·' once faded below one half, '+' before that. */
  function TrailGlyph(fade: real): string
  {
    if fade < 0.5 then "·" else "+"
  }

  /** int(10 + (1 - fade) * 5). */
  function TrailDepth(fade: real): int
  {
    Trunc(10.0 + (1.0 - fade) * 5.0)
  }

  /** Resting trails sit between depths 10 and 14, behind every live
      cell (depth 5 or -8). */
  lemma TrailDepthRange(fade: real)
    requires 0.05 < fade <= 0.95
    ensures 10 <= TrailDepth(fade) <= 14
  {
    TruncMonotone(10.0, 10.0 + (1.0 - fade) * 5.0);
    TruncOfInt(10);
    TruncMonotone(10.0 + (1.0 - fade) * 5.0, 14.75);
    assert Trunc(14.75) == 14;
  }

  /** The write of the trail at q. */
  function TrailWrite(q: Pos, fade: real, gradient: seq<string>): Write
    requires |gradient| > 0
  {
    var z := TrailDepth(fade);
    Write(q.0, q.1, TrailGlyph(fade), z as real, Some(Colors.DepthColor(gradient, z as real, 5.0, 20.0)), 1.0)
  }

  /** The trail pass: one write per trail that is on screen and not under
      a live cell. */
  function TrailWrites(trails: map<Pos, real>, cells: map<Pos, real>, width: int, height: int, gradient: seq<string>): (ws: map<Pos, Write>)
    requires |gradient| > 0
    ensures AtKeys(ws)
    ensures forall q :: q in ws <==> q in trails && q !in cells && 0 <= q.0 < width && 0 <= q.1 < height
  {
    map q | q in trails && q !in cells && 0 <= q.0 < width && 0 <= q.1 < height :: TrailWrite(q, trails[q], gradient)
  }

  /** The write of the live cell at q: a solid block in the accent colour
      at depth -8 on the mask, elsewhere a shade chosen by age at depth 5
      coloured by int(age * 10) over [0, 12]. */
  function CellWrite(q: Pos, age: real, inMask: bool, accent: string, gradient: seq<string>): Write
    requires |gradient| > 0
  {
    if inMask then Write(q.0, q.1, "█", -8.0, Some(accent), 1.0)
    else Write(q.0, q.1, if age > 0.5 then "▓" else "▒", 5.0,
               Some(Colors.DepthColor(gradient, Trunc(age * 10.0) as real, 0.0, 12.0)), 1.0)
  }

  /** The cell pass: one write per live cell on screen. */
  function CellWrites(cells: map<Pos, real>, mask: set<Pos>, width: int, height: int, accent: string, gradient: seq<string>): (ws: map<Pos, Write>)
    requires |gradient| > 0
    ensures AtKeys(ws)
    ensures forall q :: q in ws <==> q in cells && 0 <= q.0 < width && 0 <= q.1 < height
  {
    map q | q in cells && 0 <= q.0 < width && 0 <= q.1 < height :: CellWrite(q, cells[q], q in mask, accent, gradient)
  }

  /** The two passes never write the same position, so their order does
      not matter. */
  lemma PassesDisjoint(trails: map<Pos, real>, cells: map<Pos, real>, mask: set<Pos>, width: int, height: int,
                       accent: string, gradient: seq<string>)
    requires |gradient| > 0
    ensures TrailWrites(trails, cells, width, height, gradient).Keys !! CellWrites(cells, mask, width, height, accent, gradient).Keys
  {
  }

  /** Every trail drawn lies behind every cell drawn. */
  lemma TrailsBehindCells(trails: map<Pos, real>, cells: map<Pos, real>, mask: set<Pos>, width: int, height: int,
                          accent: string, gradient: seq<string>, p: Pos, q: Pos)
    requires |gradient| > 0 && FadesInRange(trails)
    requires p in TrailWrites(trails, cells, width, height, gradient)
    requires q in CellWrites(cells, mask, width, height, accent, gradient)
    ensures CellWrites(cells, mask, width, height, accent, gradient)[q].z < TrailWrites(trails, cells, width, height, gradient)[p].z
  {
    TrailDepthRange(trails[p]);
  }

  // ---------------------------------------------------------------------
  // The state

  class LifeState {
    var cells: map<Pos, real>
    var trails: map<Pos, real>
    var w: int
    var h: int
    var lastTime: string
    var mask: set<Pos>

    /** Every age is in [0, 1] and every trail at rest has a fade in
        (0.05, 0.95]. */
    ghost predicate Valid()
      reads this
    {
      AgesInRange(cells) && FadesInRange(trails)
    }

    /** LifeState(): no cells, no trails, size 0 x 0, no time yet. */
    constructor ()
      ensures Valid()
      ensures cells == map[] && trails == map[] && w == 0 && h == 0 && lastTime == "" && mask == {}
    {
      cells := map[];
      trails := map[];
      w := 0;
      h := 0;
      lastTime := "";
      mask := {};
    }

    /** The live cells the step starts from: the seeding after a size
        change, the current cells otherwise. */
    function StartCells(width: int, height: int, seed: Pos -> real): map<Pos, real>
      reads this
    {
      if w != width || h != height then Seeded(width, height, seed) else cells
    }

    /** The mask the step uses: rebuilt when the time string changed,
        kept otherwise. */
    function NextMask(width: int, height: int, timeStr: string, font: Font, textW: int, textH: int): set<Pos>
      requires timeStr != lastTime ==> ClockMask.Readable(timeStr, font)
      reads this
    {
      if timeStr != lastTime
      then ClockMask.MaskSet(timeStr, font, MaskOrigin(width, height, textW, textH).0, MaskOrigin(width, height, textW, textH).1)
      else mask
    }

    /** The update half of render: reseed on a size change, rebuild the
        mask when the time string changes, step the automaton and fade
        the trails. */
    method Advance(width: int, height: int, timeStr: string, font: Font,
                   textW: int, textH: int, seed: Pos -> real, draws: Pos -> real)
      requires Valid()
      requires timeStr != lastTime ==> ClockMask.Readable(timeStr, font)
      modifies this
      ensures Valid()
      ensures w == width && h == height && lastTime == timeStr
      ensures mask == old(NextMask(width, height, timeStr, font, textW, textH))
      ensures var start := old(StartCells(width, height, seed));
        && cells == NextCells(start, mask, draws)
        && trails == Faded(old(trails) + FreshTrails(DiedOn(start, mask, draws, CandidateSet(start.Keys))))
    {
      Resize(width, height, seed);
      UpdateMask(width, height, timeStr, font, textW, textH);
      StepCells(draws);
    }

    /** A size change records the new size and reseeds the cells. */
    method Resize(width: int, height: int, seed: Pos -> real)
      requires Valid()
      modifies this
      ensures Valid()
      ensures w == width && h == height && cells == old(StartCells(width, height, seed))
      ensures trails == old(trails) && lastTime == old(lastTime) && mask == old(mask)
    {
      if w != width || h != height {
        w := width;
        h := height;
        cells := Seeded(width, height, seed);
      }
    }

    /** A new time string rebuilds the mask around it. */
    method UpdateMask(width: int, height: int, timeStr: string, font: Font, textW: int, textH: int)
      requires timeStr != lastTime ==> ClockMask.Readable(timeStr, font)
      modifies this
      ensures lastTime == timeStr && mask == old(NextMask(width, height, timeStr, font, textW, textH))
      ensures cells == old(cells) && trails == old(trails) && w == old(w) && h == old(h)
    {
      if timeStr != lastTime {
        lastTime := timeStr;
        var origin := MaskOrigin(width, height, textW, textH);
        mask := ClockMask.BuildMask(timeStr, font, origin.0, origin.1);
      }
    }

    /** The Game of Life step followed by the fade pass. */
    method StepCells(draws: Pos -> real)
      requires Valid()
      modifies this
      ensures Valid()
      ensures cells == NextCells(old(cells), mask, draws)
      ensures trails == Faded(old(trails) + FreshTrails(DiedOn(old(cells), mask, draws, CandidateSet(old(cells).Keys))))
      ensures w == old(w) && h == old(h) && lastTime == old(lastTime) && mask == old(mask)
    {
      var next, marked := Evolve(cells, trails, mask, draws);
      NextKeepsAges(cells, mask, draws);
      FadeKeepsRange(trails, DiedOn(cells, mask, draws, CandidateSet(cells.Keys)));
      cells := next;
      trails := FadeAll(marked);
    }

    /** The drawing half of render: the trail pass, then the cell pass. */
    method Draw(buffer: Screen.ScreenBuffer, width: int, height: int, accent: string, gradient: seq<string>)
      requires buffer.Valid() && |gradient| > 0
      modifies buffer
      ensures buffer.Valid()
      ensures buffer.cells == Paint(Paint(old(buffer.cells), buffer.width, buffer.height,
                                          TrailWrites(trails, cells, width, height, gradient)),
                                    buffer.width, buffer.height, CellWrites(cells, mask, width, height, accent, gradient))
    {
      Screen.PaintAll(buffer, TrailWrites(trails, cells, width, height, gradient));
      Screen.PaintAll(buffer, CellWrites(cells, mask, width, height, accent, gradient));
    }

    /** render: one frame of the automaton drawn into the buffer. Returns
        the engine's rotation pair. */
    method Render(buffer: Screen.ScreenBuffer, width: int, height: int, timeStr: string, font: Font,
                  textW: int, textH: int, seed: Pos -> real, draws: Pos -> real,
                  accent: string, gradient: seq<string>)
      returns (rot: (int, int))
      requires Valid() && buffer.Valid() && |gradient| > 0
      requires timeStr != lastTime ==> ClockMask.Readable(timeStr, font)
      modifies this, buffer
      ensures Valid() && buffer.Valid()
      ensures w == width && h == height && lastTime == timeStr
      ensures mask == old(NextMask(width, height, timeStr, font, textW, textH))
      ensures var start := old(StartCells(width, height, seed));
        && cells == NextCells(start, mask, draws)
        && trails == Faded(old(trails) + FreshTrails(DiedOn(start, mask, draws, CandidateSet(start.Keys))))
      ensures buffer.cells == Paint(Paint(old(buffer.cells), buffer.width, buffer.height,
                                          TrailWrites(trails, cells, width, height, gradient)),
                                    buffer.width, buffer.height, CellWrites(cells, mask, width, height, accent, gradient))
      ensures rot == (-15, 20)
    {
      Advance(width, height, timeStr, font, textW, textH, seed, draws);
      Draw(buffer, width, height, accent, gradient);
      rot := (-15, 20);
    }
  }

  // ---------------------------------------------------------------------
  // The loops of a step

  /** The Game of Life step over the candidates: every candidate's fate
      decides the next generation, and every live cell that dies leaves a
      marked trail. */
  method Evolve(cells: map<Pos, real>, trails: map<Pos, real>, mask: set<Pos>, draws: Pos -> real)
    returns (next: map<Pos, real>, marked: map<Pos, real>)
    ensures next == NextCells(cells, mask, draws)
    ensures marked == trails + FreshTrails(DiedOn(cells, mask, draws, CandidateSet(cells.Keys)))
  {
    var cand := Candidates(cells);
    next := map[];
    marked := trails;
    var todo := cand;
    assert cand - todo == {};
    while todo != {}
      invariant todo <= cand
      invariant next == NextOn(cells, mask, draws, cand - todo)
      invariant marked == trails + FreshTrails(DiedOn(cells, mask, draws, cand - todo))
      decreases |todo|
    {
      var q :| q in todo;
      ghost var done := cand - todo;
      NextOnAdd(cells, mask, draws, done, q);
      DiedOnAdd(cells, mask, draws, done, q);
      var fate := Fate(q in cells, if q in cells then cells[q] else 0.0, q in mask, Count(cells.Keys, q), draws(q));
      assert fate == FateAt(cells, mask, draws, q);
      if fate.Some? {
        next := next[q := fate.value];
      } else if q in cells {
        MarkedAdd(trails, DiedOn(cells, mask, draws, done), q);
        marked := marked[q := 1.0];
      }
      todo := todo - {q};
      assert cand - todo == done + {q};
    }
    assert cand - todo == cand;
  }

  /** The fade pass over the trails. */
  method FadeAll(trails: map<Pos, real>) returns (faded: map<Pos, real>)
    ensures faded == Faded(trails)
  {
    faded := map[];
    var todo := trails.Keys;
    assert trails.Keys - todo == {};
    while todo != {}
      invariant todo <= trails.Keys
      invariant faded == FadedOn(trails, trails.Keys - todo)
      decreases |todo|
    {
      var q :| q in todo;
      ghost var done := trails.Keys - todo;
      FadedOnAdd(trails, done, q);
      if trails[q] > 0.1 {
        faded := faded[q := trails[q] - 0.05];
      }
      todo := todo - {q};
      assert trails.Keys - todo == done + {q};
    }
    assert trails.Keys - todo == trails.Keys;
  }

  // ---------------------------------------------------------------------
  // Loop steps

  lemma NextOnAdd(cells: map<Pos, real>, mask: set<Pos>, draws: Pos -> real, s: set<Pos>, q: Pos)
    requires q !in s
    ensures var f := FateAt(cells, mask, draws, q);
      NextOn(cells, mask, draws, s + {q}) ==
        if f.Some? then NextOn(cells, mask, draws, s)[q := f.value] else NextOn(cells, mask, draws, s)
  {
  }

  lemma DiedOnAdd(cells: map<Pos, real>, mask: set<Pos>, draws: Pos -> real, s: set<Pos>, q: Pos)
    requires q !in s
    ensures var f := FateAt(cells, mask, draws, q);
      DiedOn(cells, mask, draws, s + {q}) ==
        if f.None? && q in cells then DiedOn(cells, mask, draws, s) + {q} else DiedOn(cells, mask, draws, s)
  {
  }

  lemma MarkedAdd(trails: map<Pos, real>, s: set<Pos>, q: Pos)
    ensures (trails + FreshTrails(s))[q := 1.0] == trails + FreshTrails(s + {q})
  {
  }

  /** The fade pass restricted to the positions of s. */
  function FadedOn(trails: map<Pos, real>, s: set<Pos>): map<Pos, real>
  {
    map q | q in s && q in trails && trails[q] > 0.1 :: trails[q] - 0.05
  }

  lemma FadedOnAdd(trails: map<Pos, real>, s: set<Pos>, q: Pos)
    requires q in trails && q !in s
    ensures FadedOn(trails, s + {q}) ==
      if trails[q] > 0.1 then FadedOn(trails, s)[q := trails[q] - 0.05] else FadedOn(trails, s)
  {
  }
}
