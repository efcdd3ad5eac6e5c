/** ShaderRenderer of shader_engine.py: a shader produces a field of
    sub-pixel levels over a virtual grid finer than the terminal; the
    renderer dithers it with a tiled 4x4 Bayer matrix, thresholds it and
    packs the sub-pixels of each terminal cell into a half-block glyph
    (1x2 sub-pixels) or a Braille glyph (2x4 sub-pixels), then writes the
    active cells into the screen buffer at depth 1.0. The numpy array
    operations are pointwise functions over nested sequences. */
module Shader {
  import opened Common
  import Colors
  import opened Surface
  import Screen

  /** A 2D numpy array of floats. */
  type Field = seq<seq<real>>

  /** f has h rows of w entries. */
  predicate Shaped<T>(f: seq<seq<T>>, h: int, w: int)
  {
    |f| == h && forall y :: 0 <= y < |f| ==> |f[y]| == w
  }

  /** One RGB sample of a colour shader, each channel nominally in [0, 1]. */
  datatype RGB = RGB(r: real, g: real, b: real)

  /** What a shader function returns: a scalar intensity field, or an
      array whose last axis holds three colour channels. */
  datatype Frame = Mono(level: Field) | Color(rgb: seq<seq<RGB>>)

  predicate FrameFits(f: Frame, h: int, w: int)
  {
    match f
    case Mono(level) => Shaped(level, h, w)
    case Color(rgb) => Shaped(rgb, h, w)
  }

  // ---------------------------------------------------------------------
  // Virtual grid

  /** Sub-pixels per terminal cell: 2 across and 4 down for Braille, 1
      across and 2 down for half blocks. */
  function VirtualWidth(width: nat, braille: bool): (vw: nat)
    ensures braille ==> vw == 2 * width
    ensures !braille ==> vw == width
  {
    if braille then width * 2 else width
  }

  function VirtualHeight(height: nat, braille: bool): (vh: nat)
    ensures braille ==> vh == 4 * height
    ensures !braille ==> vh == 2 * height
  {
    if braille then height * 4 else height * 2
  }

  /** The u coordinate of each virtual column: -aspect at the left edge,
      growing to the right. */
  function UAxis(vw: nat, aspect: real): seq<real>
  {
    seq(vw, x requires 0 <= x < vw => (x as real / vw as real * 2.0 - 1.0) * aspect)
  }

  /** The v coordinate of each virtual row: 1.0 at the top, falling
      towards -1.0 at the bottom. */
  function VAxis(vh: nat): seq<real>
  {
    seq(vh, y requires 0 <= y < vh => 1.0 - (y as real / vh as real) * 2.0)
  }

  /** numpy.meshgrid(u, v): row y of the first array is u, and every
      entry of row y of the second is v[y]. */
  function MeshU(u: seq<real>, v: seq<real>): (m: Field)
    ensures Shaped(m, |v|, |u|)
    ensures forall y, x :: 0 <= y < |v| && 0 <= x < |u| ==> m[y][x] == u[x]
  {
    seq(|v|, _ => u)
  }

  function MeshV(u: seq<real>, v: seq<real>): (m: Field)
    ensures Shaped(m, |v|, |u|)
    ensures forall y, x :: 0 <= y < |v| && 0 <= x < |u| ==> m[y][x] == v[y]
  {
    seq(|v|, y requires 0 <= y < |v| => seq(|u|, _ => v[y]))
  }

  /** The v axis starts at 1.0, strictly falls and stays in (-1, 1]. */
  lemma VAxisRange(vh: nat)
    ensures vh > 0 ==> VAxis(vh)[0] == 1.0
    ensures forall y :: 0 <= y < vh ==> -1.0 < VAxis(vh)[y] <= 1.0
    ensures forall y :: 0 <= y < vh - 1 ==> VAxis(vh)[y + 1] < VAxis(vh)[y]
  {
    forall y | 0 <= y < vh
      ensures -1.0 < VAxis(vh)[y] <= 1.0
    {
      var t := y as real / vh as real;
      assert 0.0 <= t < 1.0 by {
        assert t * vh as real == y as real;
      }
    }
    forall y | 0 <= y < vh - 1
      ensures VAxis(vh)[y + 1] < VAxis(vh)[y]
    {
      var a := y as real / vh as real;
      var b := (y + 1) as real / vh as real;
      assert a < b by {
        assert a * vh as real == y as real;
        assert b * vh as real == (y + 1) as real;
      }
    }
  }

  /** For a positive aspect ratio the u axis starts at -aspect and stays
      in [-aspect, aspect). */
  lemma UAxisRange(vw: nat, aspect: real)
    requires aspect > 0.0
    ensures vw > 0 ==> UAxis(vw, aspect)[0] == -aspect
    ensures forall x :: 0 <= x < vw ==> -aspect <= UAxis(vw, aspect)[x] < aspect
  {
    forall x | 0 <= x < vw
      ensures -aspect <= UAxis(vw, aspect)[x] < aspect
    {
      var t := x as real / vw as real;
      assert 0.0 <= t < 1.0 by {
        assert t * vw as real == x as real;
      }
      var s := t * 2.0 - 1.0;
      assert -1.0 <= s < 1.0;
      assert -aspect <= s * aspect < aspect by {
        assert (s + 1.0) * aspect >= 0.0;
        assert (1.0 - s) * aspect > 0.0;
      }
    }
  }

  // ---------------------------------------------------------------------
  // Ordered dithering

  /** The ranks of the classic 4x4 Bayer matrix. */
  const BayerRanks: seq<seq<int>> :=
    [[0, 8, 2, 10],
     [12, 4, 14, 6],
     [3, 11, 1, 9],
     [15, 7, 13, 5]]

  const DitherMagnitude: real := 0.15

  /** The Bayer thresholds centred on zero: rank / 16 - 0.5. */
  function Bayer(): (b: Field)
    ensures Shaped(b, 4, 4)
  {
    seq(4, i requires 0 <= i < 4 => seq(4, j requires 0 <= j < 4 => BayerRanks[i][j] as real * (1.0 / 16.0) - 0.5))
  }

  /** The 16 ranks in row order. */
  function BayerFlat(): (s: seq<int>)
    ensures |s| == 16
  {
    BayerRanks[0] + BayerRanks[1] + BayerRanks[2] + BayerRanks[3]
  }

  /** The 16 ranks take every value 0 to 15, so they are those numbers in
      some order, each exactly once. */
  lemma BayerRanksPermutation()
    ensures forall i :: 0 <= i < 16 ==> 0 <= BayerFlat()[i] < 16
    ensures forall k :: 0 <= k < 16 ==> k in BayerFlat()
  {
    var flat := BayerFlat();
    assert flat == [0, 8, 2, 10, 12, 4, 14, 6, 3, 11, 1, 9, 15, 7, 13, 5];
    var where := [0, 10, 2, 8, 5, 15, 7, 13, 1, 11, 3, 9, 4, 14, 6, 12];
    forall k | 0 <= k < 16
      ensures k in flat
    {
      assert flat[where[k]] == k;
    }
  }

  /** So every threshold lies in [-0.5, 0.4375]. */
  lemma BayerRange()
    ensures forall i, j :: 0 <= i < 4 && 0 <= j < 4 ==> -0.5 <= Bayer()[i][j] <= 0.4375
  {
    forall i, j | 0 <= i < 4 && 0 <= j < 4
      ensures -0.5 <= Bayer()[i][j] <= 0.4375
    {
      assert 0 <= BayerRanks[i][j] <= 15;
    }
  }

  /** numpy.tile of a 4x4 matrix, ry times down and rx times across. */
  function Tile(b: Field, ry: nat, rx: nat): (t: Field)
    requires Shaped(b, 4, 4)
    ensures Shaped(t, 4 * ry, 4 * rx)
  {
    seq(4 * ry, i requires 0 <= i < 4 * ry => seq(4 * rx, j requires 0 <= j < 4 * rx => b[i % 4][j % 4]))
  }

  /** The dither map: the Bayer matrix tiled (vh // 4 + 1) by
      (vw // 4 + 1) times and cut to the virtual size. Entry (y, x) is
      the Bayer threshold at (y mod 4, x mod 4). */
  function DitherMap(vh: nat, vw: nat): (d: Field)
    ensures Shaped(d, vh, vw)
    ensures forall y, x :: 0 <= y < vh && 0 <= x < vw ==> d[y][x] == Bayer()[y % 4][x % 4]
  {
    var t := Tile(Bayer(), vh / 4 + 1, vw / 4 + 1);
    seq(vh, y requires 0 <= y < vh => t[y][..vw])
  }

  // ---------------------------------------------------------------------
  // Luminance

  /** The level of sub-pixel (y, x) before dithering: the intensity of a
      scalar frame, the Rec. 601 luma of a colour frame. */
  function BaseLevel(f: Frame, h: nat, w: nat, y: nat, x: nat): real
    requires FrameFits(f, h, w) && y < h && x < w
  {
    match f
    case Mono(level) => level[y][x]
    case Color(rgb) => 0.299 * rgb[y][x].r + 0.587 * rgb[y][x].g + 0.114 * rgb[y][x].b
  }

  /** The dithered luminance clip(base + dither * 0.15, 0, 1). */
  function Luminance(f: Frame, dither: Field, h: nat, w: nat): (l: Field)
    requires FrameFits(f, h, w) && Shaped(dither, h, w)
    ensures Shaped(l, h, w)
    ensures forall y, x :: 0 <= y < h && 0 <= x < w ==> 0.0 <= l[y][x] <= 1.0
  {
    seq(h, y requires 0 <= y < h => seq(w, x requires 0 <= x < w =>
      ClipReal(BaseLevel(f, h, w, y, x) + dither[y][x] * DitherMagnitude, 0.0, 1.0)))
  }

  /** With the Bayer map, dithering moves a level by at most 0.075 down and
      0.065625 up (before clipping to [0, 1]). */
  lemma DitherDisplacement(f: Frame, h: nat, w: nat, y: nat, x: nat)
    requires FrameFits(f, h, w) && y < h && x < w
    ensures var l := Luminance(f, DitherMap(h, w), h, w)[y][x];
            var base := BaseLevel(f, h, w, y, x);
            ClipReal(base - 0.075, 0.0, 1.0) <= l <= ClipReal(base + 0.065625, 0.0, 1.0)
  {
    BayerRange();
    var d := DitherMap(h, w)[y][x];
    assert -0.5 <= d <= 0.4375;
    var base := BaseLevel(f, h, w, y, x);
    ClipMonotone(base - 0.075, base + d * DitherMagnitude);
    ClipMonotone(base + d * DitherMagnitude, base + 0.065625);
  }

  lemma ClipMonotone(a: real, b: real)
    requires a <= b
    ensures ClipReal(a, 0.0, 1.0) <= ClipReal(b, 0.0, 1.0)
  {
  }

  function ClipRGB(c: RGB): (r: RGB)
    ensures 0.0 <= r.r <= 1.0 && 0.0 <= r.g <= 1.0 && 0.0 <= r.b <= 1.0
  {
    RGB(ClipReal(c.r, 0.0, 1.0), ClipReal(c.g, 0.0, 1.0), ClipReal(c.b, 0.0, 1.0))
  }

  /** The colour data: the frame clipped to [0, 1] per channel for a
      colour frame, none for a scalar frame. */
  function ColorData(f: Frame, h: nat, w: nat): (cd: Option<seq<seq<RGB>>>)
    requires FrameFits(f, h, w)
    ensures cd.Some? <==> f.Color?
    ensures cd.Some? ==> Shaped(cd.value, h, w)
    ensures cd.Some? ==> forall y, x :: 0 <= y < h && 0 <= x < w ==>
      cd.value[y][x] == ClipRGB(f.rgb[y][x])
  {
    match f
    case Mono(_) => None
    case Color(rgb) => Some(seq(h, y requires 0 <= y < h => seq(w, x requires 0 <= x < w => ClipRGB(rgb[y][x]))))
  }

  /** Every channel of the colour data lies in [0, 1]. */
  predicate UnitColors(cd: Option<seq<seq<RGB>>>)
  {
    cd.Some? ==> forall y, x :: 0 <= y < |cd.value| && 0 <= x < |cd.value[y]| ==>
      0.0 <= cd.value[y][x].r <= 1.0 && 0.0 <= cd.value[y][x].g <= 1.0 && 0.0 <= cd.value[y][x].b <= 1.0
  }

  lemma ColorDataUnit(f: Frame, h: nat, w: nat)
    requires FrameFits(f, h, w)
    ensures UnitColors(ColorData(f, h, w))
  {
  }

  // ---------------------------------------------------------------------
  // Colours of packed cells

  /** One packed terminal cell: its glyph, its mask (0 for an inactive
      cell) and its colour code. */
  datatype PackedCell = PackedCell(glyph: string, mask: nat, color: string)

  /** (c * 255).astype(int): a channel as a byte. */
  function ChannelByte(c: real): (v: int)
    ensures 0.0 <= c <= 1.0 ==> 0 <= v <= 255
  {
    TruncBounds(c * 255.0);
    Trunc(c * 255.0)
  }

  function RgbCode(c: RGB): string
  {
    Colors.FgRgb(ChannelByte(c.r), ChannelByte(c.g), ChannelByte(c.b))
  }

  /** The gradient entry for a level: index int(level * (len - 1)),
      clipped to [0, len - 1]. */
  function GradientStop(level: real, gradient: seq<string>): (s: string)
    requires |gradient| > 0
    ensures s in gradient
  {
    var n := |gradient|;
    var i := Trunc(level * (n - 1) as real);
    gradient[ClipInt(i, 0, n - 1)]
  }

  /** For a level in [0, 1] the clipping does nothing and the entry is the
      one the theme manager's depth lookup picks for that level. */
  lemma GradientStopAgrees(level: real, gradient: seq<string>)
    requires |gradient| > 0 && 0.0 <= level <= 1.0
    ensures GradientStop(level, gradient) == gradient[Colors.ScaledIndex(level, |gradient|)]
  {
    var x := level * (|gradient| - 1) as real;
    assert x <= (|gradient| - 1) as real;
    TruncBounds(x);
  }

  // ---------------------------------------------------------------------
  // Half-block packing

  const BlockThreshold: real := 0.15
  const FullBlock: string := "█"

  /** The 2-bit mask: bit 1 for a lit top sub-pixel, bit 0 for a lit
      bottom one. */
  function BlockMask(top: real, bot: real): (m: nat)
    ensures m < 4
    ensures m >= 2 <==> top > BlockThreshold
    ensures m % 2 == 1 <==> bot > BlockThreshold
  {
    (if top > BlockThreshold then 2 else 0) + (if bot > BlockThreshold then 1 else 0)
  }

  function BlockGlyph(m: nat): string
    requires m < 4
  {
    [" ", LowerHalf, UpperHalf, FullBlock][m]
  }

  /** The glyph covers the upper half exactly when bit 1 is set and the
      lower half exactly when bit 0 is set; the four glyphs differ. */
  lemma BlockGlyphHalves(m: nat)
    requires m < 4
    ensures (BlockGlyph(m) == UpperHalf || BlockGlyph(m) == FullBlock) <==> m >= 2
    ensures (BlockGlyph(m) == LowerHalf || BlockGlyph(m) == FullBlock) <==> m % 2 == 1
    ensures BlockGlyph(m) == " " <==> m == 0
  {
  }

  /** The level a block cell is coloured by: the mean of its lit
      sub-pixels, and 0 when none is lit. */
  function BlockLevel(m: nat, top: real, bot: real): (v: real)
    requires m < 4
    ensures v * ((m / 2) + (m % 2)) as real
         == (if m >= 2 then top else 0.0) + (if m % 2 == 1 then bot else 0.0)
    ensures m == 0 ==> v == 0.0
  {
    if m == 3 then (top + bot) * 0.5
    else if m == 2 then top
    else if m == 1 then bot
    else 0.0
  }

  /** Terminal cell (y, x) in half-block mode, built from virtual rows
      2y and 2y + 1. */
  function BlockCell(lum: Field, cd: Option<seq<seq<RGB>>>, gradient: seq<string>,
                     h: nat, w: nat, y: nat, x: nat): (p: PackedCell)
    requires Shaped(lum, 2 * h, w) && (cd.Some? ==> Shaped(cd.value, 2 * h, w))
    requires |gradient| > 0 && y < h && x < w
  {
    var top := lum[2 * y][x];
    var bot := lum[2 * y + 1][x];
    var m := BlockMask(top, bot);
    var color := match cd
      case Some(c) =>
        var t := c[2 * y][x];
        var b := c[2 * y + 1][x];
        RgbCode(RGB(BlockLevel(m, t.r, b.r), BlockLevel(m, t.g, b.g), BlockLevel(m, t.b, b.b)))
      case None => GradientStop(BlockLevel(m, top, bot), gradient);
    PackedCell(BlockGlyph(m), m, color)
  }

  function BlockCells(lum: Field, cd: Option<seq<seq<RGB>>>, gradient: seq<string>, h: nat, w: nat)
    : (ps: seq<seq<PackedCell>>)
    requires Shaped(lum, 2 * h, w) && (cd.Some? ==> Shaped(cd.value, 2 * h, w)) && |gradient| > 0
    ensures Shaped(ps, h, w)
  {
    seq(h, y requires 0 <= y < h => seq(w, x requires 0 <= x < w => BlockCell(lum, cd, gradient, h, w, y, x)))
  }

  /** What a half-block cell shows: the upper half is drawn exactly when
      the top sub-pixel is lit, the lower half exactly when the bottom one
      is, and the cell is active exactly when one of them is. */
  lemma BlockCellGlyph(lum: Field, cd: Option<seq<seq<RGB>>>, gradient: seq<string>,
                       h: nat, w: nat, y: nat, x: nat)
    requires Shaped(lum, 2 * h, w) && (cd.Some? ==> Shaped(cd.value, 2 * h, w))
    requires |gradient| > 0 && y < h && x < w
    ensures var p := BlockCell(lum, cd, gradient, h, w, y, x);
            && ((p.glyph == UpperHalf || p.glyph == FullBlock) <==> lum[2 * y][x] > BlockThreshold)
            && ((p.glyph == LowerHalf || p.glyph == FullBlock) <==> lum[2 * y + 1][x] > BlockThreshold)
            && (p.mask > 0 <==> lum[2 * y][x] > BlockThreshold || lum[2 * y + 1][x] > BlockThreshold)
  {
    var m := BlockMask(lum[2 * y][x], lum[2 * y + 1][x]);
    BlockGlyphHalves(m);
  }

  /** A scalar half-block cell is coloured by the gradient entry of the
      mean of its lit sub-pixels, the same entry the theme manager picks
      for that level. */
  lemma BlockCellGradient(lum: Field, gradient: seq<string>, h: nat, w: nat, y: nat, x: nat)
    requires Shaped(lum, 2 * h, w) && |gradient| > 0 && y < h && x < w
    requires forall j, i :: 0 <= j < 2 * h && 0 <= i < w ==> 0.0 <= lum[j][i] <= 1.0
    ensures var top := lum[2 * y][x];
            var bot := lum[2 * y + 1][x];
            var c := BlockCell(lum, None, gradient, h, w, y, x).color;
            && (top > BlockThreshold && bot > BlockThreshold ==>
                  c == gradient[Colors.ScaledIndex((top + bot) * 0.5, |gradient|)])
            && (top > BlockThreshold && bot <= BlockThreshold ==>
                  c == gradient[Colors.ScaledIndex(top, |gradient|)])
            && (top <= BlockThreshold && bot > BlockThreshold ==>
                  c == gradient[Colors.ScaledIndex(bot, |gradient|)])
  {
    var top := lum[2 * y][x];
    var bot := lum[2 * y + 1][x];
    var m := BlockMask(top, bot);
    GradientStopAgrees(BlockLevel(m, top, bot), gradient);
  }

  // ---------------------------------------------------------------------
  // Braille packing

  const BrailleOffset: int := 0x2800
  const BrailleThreshold: real := 0.3

  /** The weight of sub-pixel (r, c) of a cell, r the row (0..3) and c the
      column (0..1). */
  const BraillePixelMap: seq<seq<nat>> :=
    [[0x01, 0x08],
     [0x02, 0x10],
     [0x04, 0x20],
     [0x40, 0x80]]

  /** The Unicode Braille dot number (1..8) of sub-pixel (r, c): dots 1-3
      run down the left column, 4-6 down the right, 7 and 8 form the
      bottom row. */
  function DotNumber(r: nat, c: nat): (d: nat)
    requires r < 4 && c < 2
    ensures 1 <= d <= 8
  {
    if r < 3 then 3 * c + r + 1 else 7 + c
  }

  function Pow2(n: nat): (p: nat)
    ensures p > 0
  {
    if n == 0 then 1 else 2 * Pow2(n - 1)
  }

  /** The map gives sub-pixel (r, c) the weight 2^(dot - 1): Unicode's
      dots 1-8 are bits 0-7. */
  lemma BraillePixelMapIsDotBits()
    ensures forall r, c :: 0 <= r < 4 && 0 <= c < 2 ==>
      BraillePixelMap[r][c] == Pow2(DotNumber(r, c) - 1)
  {
    assert Pow2(0) == 1 && Pow2(1) == 2 && Pow2(2) == 4 && Pow2(3) == 8;
    assert Pow2(4) == 16 && Pow2(5) == 32 && Pow2(6) == 64 && Pow2(7) == 128;
  }

  /** The lit flags of the 8 sub-pixels of cell (y, x), sub-pixel (r, c)
      at index 2r + c, taken from virtual pixel (4y + r, 2x + c). */
  function Dots(lum: Field, h: nat, w: nat, y: nat, x: nat): (d: seq<bool>)
    requires Shaped(lum, 4 * h, 2 * w) && y < h && x < w
    ensures |d| == 8
  {
    seq(8, k requires 0 <= k < 8 => SubLit(lum, h, w, y, x, k / 2, k % 2))
  }

  /** Sub-pixel (r, c) of cell (y, x), virtual pixel (4y + r, 2x + c), is
      above the Braille threshold. */
  predicate SubLit(lum: Field, h: nat, w: nat, y: nat, x: nat, r: nat, c: nat)
    requires Shaped(lum, 4 * h, 2 * w) && y < h && x < w && r < 4 && c < 2
  {
    lum[4 * y + r][2 * x + c] > BrailleThreshold
  }

  function B(b: bool): nat
  {
    if b then 1 else 0
  }

  /** s[i] + s[i + 1] + ... + s[|s| - 1]. */
  function SumFrom(s: seq<nat>, i: nat): nat
    decreases |s| - i
  {
    if i >= |s| then 0 else s[i] + SumFrom(s, i + 1)
  }

  /** The weights of the lit sub-pixels, in sub-pixel order. */
  function Weighted(dots: seq<bool>): (ws: seq<nat>)
    requires |dots| == 8
    ensures |ws| == 8
  {
    seq(8, k requires 0 <= k < 8 => B(dots[k]) * BraillePixelMap[k / 2][k % 2])
  }

  /** The bitmask: the sum of the weights of the lit sub-pixels. */
  function BrailleMask(dots: seq<bool>): (m: nat)
    requires |dots| == 8
    ensures m <= 255
  {
    BrailleMaskExpanded(dots);
    SumFrom(Weighted(dots), 0)
  }

  lemma BrailleMaskExpanded(dots: seq<bool>)
    requires |dots| == 8
    ensures SumFrom(Weighted(dots), 0)
         == B(dots[0]) + 8 * B(dots[1]) + 2 * B(dots[2]) + 16 * B(dots[3])
          + 4 * B(dots[4]) + 32 * B(dots[5]) + 64 * B(dots[6]) + 128 * B(dots[7])
  {
    var ws := Weighted(dots);
    assert SumFrom(ws, 8) == 0;
    assert SumFrom(ws, 7) == 128 * B(dots[7]);
    assert SumFrom(ws, 6) == 64 * B(dots[6]) + SumFrom(ws, 7);
    assert SumFrom(ws, 5) == 32 * B(dots[5]) + SumFrom(ws, 6);
    assert SumFrom(ws, 4) == 4 * B(dots[4]) + SumFrom(ws, 5);
    assert SumFrom(ws, 3) == 16 * B(dots[3]) + SumFrom(ws, 4);
    assert SumFrom(ws, 2) == 2 * B(dots[2]) + SumFrom(ws, 3);
    assert SumFrom(ws, 1) == 8 * B(dots[1]) + SumFrom(ws, 2);
  }

  /** Bit i of v, read off by halving. */
  predicate BitSet(v: nat, i: nat)
  {
    if i == 0 then v % 2 == 1 else BitSet(v / 2, i - 1)
  }

  /** The number whose binary digits, least significant first, are
      bs[i], bs[i + 1], ... */
  function BinFrom(bs: seq<bool>, i: nat): nat
    decreases |bs| - i
  {
    if i >= |bs| then 0 else B(bs[i]) + 2 * BinFrom(bs, i + 1)
  }

  lemma {:induction false} BinFromBits(bs: seq<bool>, i: nat, k: nat)
    requires i + k < |bs|
    ensures BitSet(BinFrom(bs, i), k) <==> bs[i + k]
    decreases k
  {
    if k > 0 {
      assert BinFrom(bs, i) / 2 == BinFrom(bs, i + 1);
      BinFromBits(bs, i + 1, k - 1);
    }
  }

  /** The sub-pixel flags in dot order: entry d - 1 is dot d. */
  function DotOrder(dots: seq<bool>): (bits: seq<bool>)
    requires |dots| == 8
    ensures |bits| == 8
  {
    [dots[0], dots[2], dots[4], dots[1], dots[3], dots[5], dots[6], dots[7]]
  }

  lemma DotOrderAt(dots: seq<bool>, r: nat, c: nat)
    requires |dots| == 8 && r < 4 && c < 2
    ensures DotOrder(dots)[DotNumber(r, c) - 1] == dots[2 * r + c]
  {
    if r < 3 {
      assert DotNumber(r, c) - 1 == 3 * c + r;
    }
  }

  lemma BinFromEight(bits: seq<bool>)
    requires |bits| == 8
    ensures BinFrom(bits, 0)
         == B(bits[0]) + 2 * B(bits[1]) + 4 * B(bits[2]) + 8 * B(bits[3])
          + 16 * B(bits[4]) + 32 * B(bits[5]) + 64 * B(bits[6]) + 128 * B(bits[7])
  {
    assert BinFrom(bits, 8) == 0;
    assert BinFrom(bits, 7) == B(bits[7]);
    assert BinFrom(bits, 6) == B(bits[6]) + 2 * BinFrom(bits, 7);
    assert BinFrom(bits, 5) == B(bits[5]) + 2 * BinFrom(bits, 6);
    assert BinFrom(bits, 4) == B(bits[4]) + 2 * BinFrom(bits, 5);
    assert BinFrom(bits, 3) == B(bits[3]) + 2 * BinFrom(bits, 4);
    assert BinFrom(bits, 2) == B(bits[2]) + 2 * BinFrom(bits, 3);
    assert BinFrom(bits, 1) == B(bits[1]) + 2 * BinFrom(bits, 2);
  }

  /** Bit (dot - 1) of the mask is set exactly when that dot's sub-pixel
      is lit, so the glyph is the Unicode Braille pattern of the lit
      sub-pixels. */
  lemma BrailleMaskBits(dots: seq<bool>)
    requires |dots| == 8
    ensures forall r, c :: 0 <= r < 4 && 0 <= c < 2 ==>
      (BitSet(BrailleMask(dots), DotNumber(r, c) - 1) <==> dots[2 * r + c])
  {
    var bits := DotOrder(dots);
    BrailleMaskExpanded(dots);
    BinFromEight(bits);
    assert BinFrom(bits, 0) == BrailleMask(dots);
    forall r, c | 0 <= r < 4 && 0 <= c < 2
      ensures BitSet(BrailleMask(dots), DotNumber(r, c) - 1) <==> dots[2 * r + c]
    {
      BinFromBits(bits, 0, DotNumber(r, c) - 1);
      DotOrderAt(dots, r, c);
    }
  }

  /** The bitmask of every terminal cell. */
  function BrailleMasks(lum: Field, h: nat, w: nat): (ms: seq<seq<nat>>)
    requires Shaped(lum, 4 * h, 2 * w)
    ensures Shaped(ms, h, w)
    ensures forall y, x :: 0 <= y < h && 0 <= x < w ==> ms[y][x] == BrailleMask(Dots(lum, h, w, y, x)) <= 255
  {
    seq(h, y requires 0 <= y < h => seq(w, x requires 0 <= x < w => BrailleMask(Dots(lum, h, w, y, x))))
  }

  /** chr(0x2800 + mask): a pattern of the Braille block U+2800..U+28FF. */
  function BrailleGlyph(m: nat): (g: string)
    requires m <= 255
    ensures |g| == 1 && 0x2800 <= g[0] as int <= 0x28FF
  {
    [(BrailleOffset + m) as char]
  }

  /** All eight lit gives U+28FF; only sub-pixel (0, 1), dot 4, gives
      mask 0x08. */
  lemma BrailleExamples()
    ensures BrailleMask([true, true, true, true, true, true, true, true]) == 0xFF
    ensures BrailleGlyph(0xFF) == [0x28FF as char]
    ensures BrailleMask([false, true, false, false, false, false, false, false]) == 0x08
  {
    BrailleMaskExpanded([true, true, true, true, true, true, true, true]);
    BrailleMaskExpanded([false, true, false, false, false, false, false, false]);
  }

  /** The 8 entries of a cell's block of sub-pixels, in sub-pixel order. */
  function Group<T>(f: seq<seq<T>>, h: nat, w: nat, y: nat, x: nat): (g: seq<T>)
    requires Shaped(f, 4 * h, 2 * w) && y < h && x < w
    ensures |g| == 8
    ensures forall k :: 0 <= k < 8 ==> g[k] == f[4 * y + k / 2][2 * x + k % 2]
  {
    seq(8, k requires 0 <= k < 8 => f[4 * y + k / 2][2 * x + k % 2])
  }

  function SumRealFrom(s: seq<real>, i: nat): real
    decreases |s| - i
  {
    if i >= |s| then 0.0 else s[i] + SumRealFrom(s, i + 1)
  }

  /** The mean of 8 values. */
  function Mean8(s: seq<real>): real
    requires |s| == 8
  {
    SumRealFrom(s, 0) / 8.0
  }

  lemma {:induction false} SumRealBounds(s: seq<real>, i: nat, lo: real, hi: real)
    requires i <= |s|
    requires forall k :: 0 <= k < |s| ==> lo <= s[k] <= hi
    ensures (|s| - i) as real * lo <= SumRealFrom(s, i) <= (|s| - i) as real * hi
    decreases |s| - i
  {
    if i < |s| {
      SumRealBounds(s, i + 1, lo, hi);
    }
  }

  /** The mean lies between the least and the greatest bound of the
      values. */
  lemma MeanBounds(s: seq<real>, lo: real, hi: real)
    requires |s| == 8
    requires forall k :: 0 <= k < 8 ==> lo <= s[k] <= hi
    ensures lo <= Mean8(s) <= hi
  {
    SumRealBounds(s, 0, lo, hi);
  }

  function Channels(g: seq<RGB>): (c: (seq<real>, seq<real>, seq<real>))
    ensures |c.0| == |c.1| == |c.2| == |g|
  {
    (seq(|g|, k requires 0 <= k < |g| => g[k].r),
     seq(|g|, k requires 0 <= k < |g| => g[k].g),
     seq(|g|, k requires 0 <= k < |g| => g[k].b))
  }

  /** The colour of a Braille cell: the mean over all 8 sub-pixels, lit or
      not, of the colour data (clipped, as bytes) or of the luminance
      (through the gradient). */
  function BrailleColor(lum: Field, cd: Option<seq<seq<RGB>>>, gradient: seq<string>,
                        h: nat, w: nat, y: nat, x: nat): string
    requires Shaped(lum, 4 * h, 2 * w) && (cd.Some? ==> Shaped(cd.value, 4 * h, 2 * w))
    requires |gradient| > 0 && y < h && x < w
  {
    match cd
    case Some(c) =>
      var ch := Channels(Group(c, h, w, y, x));
      RgbCode(RGB(ClipReal(Mean8(ch.0), 0.0, 1.0), ClipReal(Mean8(ch.1), 0.0, 1.0), ClipReal(Mean8(ch.2), 0.0, 1.0)))
    case None => GradientStop(Mean8(Group(lum, h, w, y, x)), gradient)
  }

  /** A scalar Braille cell is coloured by the gradient entry of the mean
      luminance of its 8 sub-pixels, the entry the theme manager picks
      for that level. */
  lemma BrailleColorGradient(lum: Field, gradient: seq<string>, h: nat, w: nat, y: nat, x: nat)
    requires Shaped(lum, 4 * h, 2 * w) && |gradient| > 0 && y < h && x < w
    requires forall j, i :: 0 <= j < 4 * h && 0 <= i < 2 * w ==> 0.0 <= lum[j][i] <= 1.0
    ensures var m := Mean8(Group(lum, h, w, y, x));
            && 0.0 <= m <= 1.0
            && BrailleColor(lum, None, gradient, h, w, y, x) == gradient[Colors.ScaledIndex(m, |gradient|)]
  {
    var g := Group(lum, h, w, y, x);
    forall k | 0 <= k < 8
      ensures 0.0 <= g[k] <= 1.0
    {
      assert g[2 * (k / 2) + k % 2] == lum[4 * y + k / 2][2 * x + k % 2];
    }
    MeanBounds(g, 0.0, 1.0);
    GradientStopAgrees(Mean8(g), gradient);
  }

  /** Terminal cell (y, x) in Braille mode. */
  function BrailleCell(lum: Field, cd: Option<seq<seq<RGB>>>, gradient: seq<string>,
                       h: nat, w: nat, y: nat, x: nat): (p: PackedCell)
    requires Shaped(lum, 4 * h, 2 * w) && (cd.Some? ==> Shaped(cd.value, 4 * h, 2 * w))
    requires |gradient| > 0 && y < h && x < w
  {
    var m := BrailleMask(Dots(lum, h, w, y, x));
    PackedCell(BrailleGlyph(m), if m > 0 then 1 else 0, BrailleColor(lum, cd, gradient, h, w, y, x))
  }

  function BrailleCells(lum: Field, cd: Option<seq<seq<RGB>>>, gradient: seq<string>, h: nat, w: nat)
    : (ps: seq<seq<PackedCell>>)
    requires Shaped(lum, 4 * h, 2 * w) && (cd.Some? ==> Shaped(cd.value, 4 * h, 2 * w)) && |gradient| > 0
    ensures Shaped(ps, h, w)
  {
    seq(h, y requires 0 <= y < h => seq(w, x requires 0 <= x < w => BrailleCell(lum, cd, gradient, h, w, y, x)))
  }

  /** A Braille cell shows dot d exactly when the sub-pixel of dot d is
      above the threshold. */
  lemma BrailleCellDots(lum: Field, cd: Option<seq<seq<RGB>>>, gradient: seq<string>,
                        h: nat, w: nat, y: nat, x: nat)
    requires Shaped(lum, 4 * h, 2 * w) && (cd.Some? ==> Shaped(cd.value, 4 * h, 2 * w))
    requires |gradient| > 0 && y < h && x < w
    ensures var code := BrailleCell(lum, cd, gradient, h, w, y, x).glyph[0] as int - BrailleOffset;
            && 0 <= code <= 255
            && forall r, c :: 0 <= r < 4 && 0 <= c < 2 ==>
                 (BitSet(code, DotNumber(r, c) - 1) <==> SubLit(lum, h, w, y, x, r, c))
  {
    var dots := Dots(lum, h, w, y, x);
    BrailleMaskBits(dots);
    assert BrailleCell(lum, cd, gradient, h, w, y, x).glyph[0] as int - BrailleOffset == BrailleMask(dots);
    forall r, c | 0 <= r < 4 && 0 <= c < 2
      ensures dots[2 * r + c] == SubLit(lum, h, w, y, x, r, c)
    {
      assert (2 * r + c) / 2 == r && (2 * r + c) % 2 == c;
    }
  }

  /** A Braille cell is active exactly when one of its sub-pixels is
      above the threshold; with none lit it is left out even though its
      glyph, U+2800, is computed. */
  lemma BrailleCellActive(lum: Field, cd: Option<seq<seq<RGB>>>, gradient: seq<string>,
                          h: nat, w: nat, y: nat, x: nat)
    requires Shaped(lum, 4 * h, 2 * w) && (cd.Some? ==> Shaped(cd.value, 4 * h, 2 * w))
    requires |gradient| > 0 && y < h && x < w
    ensures BrailleCell(lum, cd, gradient, h, w, y, x).mask > 0
        <==> exists r, c :: 0 <= r < 4 && 0 <= c < 2 && SubLit(lum, h, w, y, x, r, c)
  {
    var dots := Dots(lum, h, w, y, x);
    var m := BrailleMask(dots);
    BrailleMaskExpanded(dots);
    if exists r, c :: 0 <= r < 4 && 0 <= c < 2 && SubLit(lum, h, w, y, x, r, c) {
      var r, c :| 0 <= r < 4 && 0 <= c < 2 && SubLit(lum, h, w, y, x, r, c);
      assert (2 * r + c) / 2 == r && (2 * r + c) % 2 == c;
      assert dots[2 * r + c];
      assert m > 0;
    } else {
      forall k | 0 <= k < 8
        ensures !dots[k]
      {
        assert !SubLit(lum, h, w, y, x, k / 2, k % 2);
      }
      assert m == 0;
    }
  }

  // ---------------------------------------------------------------------
  // Writing to the buffer

  /** A cell after _write_to_buffer: an active packed cell replaces glyph,
      colour and depth (1.0, with no depth test) and keeps the glow
      intensity; an inactive one leaves the cell alone. */
  function StampCell(c: Cell, p: PackedCell): Cell
  {
    if p.mask > 0 then Cell(p.glyph, Fin(1.0), Some(p.color), c.intensity) else c
  }

  function Stamp(g: Grid, ps: seq<seq<PackedCell>>): (r: Grid)
    ensures |r| == |g| && forall j :: 0 <= j < |g| ==> |r[j]| == |g[j]|
  {
    seq(|g|, j requires 0 <= j < |g| => seq(|g[j]|, i requires 0 <= i < |g[j]| =>
      if j < |ps| && i < |ps[j]| then StampCell(g[j][i], ps[j][i]) else g[j][i]))
  }

  /** Every active packed cell lies on the buffer. */
  predicate ActiveWithin(ps: seq<seq<PackedCell>>, width: nat, height: nat)
  {
    forall y, x :: 0 <= y < |ps| && 0 <= x < |ps[y]| && ps[y][x].mask > 0 ==> y < height && x < width
  }

  /** Only the active cells change; each gets the packed glyph and colour
      at depth 1.0 whatever its depth was, and keeps its intensity. */
  lemma StampEffect(g: Grid, width: nat, height: nat, ps: seq<seq<PackedCell>>, y: nat, x: nat)
    requires IsGrid(g, width, height) && y < height && x < width
    ensures IsGrid(Stamp(g, ps), width, height)
    ensures var c := Stamp(g, ps)[y][x];
            if y < |ps| && x < |ps[y]| && ps[y][x].mask > 0
            then c.glyph == ps[y][x].glyph && c.depth == Fin(1.0) && c.color == Some(ps[y][x].color)
                 && c.intensity == g[y][x].intensity
            else c == g[y][x]
  {
  }

  // ---------------------------------------------------------------------
  // The renderer

  /** The whole packing of one frame: luminance, colour data, and the
      cells of the chosen mode. */
  function Pack(f: Frame, dither: Field, gradient: seq<string>, braille: bool, h: nat, w: nat)
    : (ps: seq<seq<PackedCell>>)
    requires FrameFits(f, VirtualHeight(h, braille), VirtualWidth(w, braille))
    requires Shaped(dither, VirtualHeight(h, braille), VirtualWidth(w, braille))
    requires |gradient| > 0
    ensures Shaped(ps, h, w)
  {
    var vh, vw := VirtualHeight(h, braille), VirtualWidth(w, braille);
    var lum := Luminance(f, dither, vh, vw);
    var cd := ColorData(f, vh, vw);
    if braille then BrailleCells(lum, cd, gradient, h, w) else BlockCells(lum, cd, gradient, h, w)
  }

  class ShaderRenderer {
    const width: nat
    const height: nat
    const themeManager: Colors.ThemeManager
    const useBraille: bool
    const virtWidth: nat
    const virtHeight: nat
    const bayer: Field
    const u: Field
    const v: Field
    const ditherMap: Field
    const ditherMagnitude: real

    ghost predicate Valid()
    {
      && height > 0
      && virtWidth == VirtualWidth(width, useBraille)
      && virtHeight == VirtualHeight(height, useBraille)
      && bayer == Bayer()
      && u == MeshU(UAxis(virtWidth, width as real / height as real), VAxis(virtHeight))
      && v == MeshV(UAxis(virtWidth, width as real / height as real), VAxis(virtHeight))
      && ditherMap == DitherMap(virtHeight, virtWidth)
      && ditherMagnitude == DitherMagnitude
    }

    /** __init__: the virtual grid, the coordinate meshes and the dither
        map. The aspect ratio divides by the height, so it must not be 0. */
    constructor (width: nat, height: nat, themeManager: Colors.ThemeManager, useBraille: bool)
      requires height > 0
      ensures Valid()
      ensures this.width == width && this.height == height
      ensures this.themeManager == themeManager && this.useBraille == useBraille
    {
      this.width := width;
      this.height := height;
      this.themeManager := themeManager;
      this.useBraille := useBraille;
      var vw, vh;
      if useBraille {
        vw, vh := width * 2, height * 4;
      } else {
        vw, vh := width, height * 2;
      }
      virtWidth, virtHeight := vw, vh;
      bayer := Bayer();
      var aspect := width as real / height as real;
      var us, vs := UAxis(vw, aspect), VAxis(vh);
      u, v := MeshU(us, vs), MeshV(us, vs);
      var t := Tile(Bayer(), vh / 4 + 1, vw / 4 + 1);
      ditherMap := seq(vh, y requires 0 <= y < vh => t[y][..vw]);
      ditherMagnitude := 0.15;
    }

    /** render: runs the shader on the coordinate meshes and packs the
        result into the buffer in the renderer's mode. */
    method Render(buffer: Screen.ScreenBuffer, time: real, shader: (Field, Field, real) -> Frame)
      requires Valid() && buffer.Valid() && themeManager.Valid()
      requires FrameFits(shader(u, v, time), virtHeight, virtWidth)
      requires ActiveWithin(Pack(shader(u, v, time), ditherMap, themeManager.gradient, useBraille, height, width),
                            buffer.width, buffer.height)
      modifies buffer
      ensures buffer.Valid()
      ensures buffer.cells == Stamp(old(buffer.cells),
        Pack(shader(u, v, time), ditherMap, themeManager.gradient, useBraille, height, width))
    {
      var frame := shader(u, v, time);
      var lum := Luminance(frame, ditherMap, virtHeight, virtWidth);
      var cd := ColorData(frame, virtHeight, virtWidth);
      if useBraille {
        RenderBraille(buffer, lum, cd);
      } else {
        RenderBlocks(buffer, lum, cd);
      }
    }

    /** _render_blocks. */
    method RenderBlocks(buffer: Screen.ScreenBuffer, lum: Field, cd: Option<seq<seq<RGB>>>)
      requires buffer.Valid() && themeManager.Valid()
      requires Shaped(lum, 2 * height, width) && (cd.Some? ==> Shaped(cd.value, 2 * height, width))
      requires ActiveWithin(BlockCells(lum, cd, themeManager.gradient, height, width), buffer.width, buffer.height)
      modifies buffer
      ensures buffer.Valid()
      ensures buffer.cells == Stamp(old(buffer.cells), BlockCells(lum, cd, themeManager.gradient, height, width))
    {
      WriteToBuffer(buffer, BlockCells(lum, cd, themeManager.gradient, height, width));
    }

    /** _render_braille: the bitmasks, the glyphs filled in by the nested
        loop, the active mask and the colours. */
    method RenderBraille(buffer: Screen.ScreenBuffer, lum: Field, cd: Option<seq<seq<RGB>>>)
      requires buffer.Valid() && themeManager.Valid()
      requires Shaped(lum, 4 * height, 2 * width) && (cd.Some? ==> Shaped(cd.value, 4 * height, 2 * width))
      requires ActiveWithin(BrailleCells(lum, cd, themeManager.gradient, height, width), buffer.width, buffer.height)
      modifies buffer
      ensures buffer.Valid()
      ensures buffer.cells == Stamp(old(buffer.cells), BrailleCells(lum, cd, themeManager.gradient, height, width))
    {
      var packed := PackBraille(lum, cd, themeManager.gradient, height, width);
      WriteToBuffer(buffer, packed);
    }

    /** _write_to_buffer: the active cells of each row, left to right. */
    method WriteToBuffer(buffer: Screen.ScreenBuffer, ps: seq<seq<PackedCell>>)
      requires buffer.Valid()
      requires ActiveWithin(ps, buffer.width, buffer.height)
      modifies buffer
      ensures buffer.Valid()
      ensures buffer.cells == Stamp(old(buffer.cells), ps)
    {
      ghost var c0 := buffer.cells;
      var bw, bh := buffer.width, buffer.height;
      for y := 0 to |ps|
        invariant IsGrid(buffer.cells, bw, bh)
        invariant forall j, i :: 0 <= j < bh && 0 <= i < bw ==> buffer.cells[j][i] == StampedUpTo(c0, ps, y, 0, j, i)
      {
        for x := 0 to |ps[y]|
          invariant IsGrid(buffer.cells, bw, bh)
          invariant forall j, i :: 0 <= j < bh && 0 <= i < bw ==> buffer.cells[j][i] == StampedUpTo(c0, ps, y, x, j, i)
        {
          if ps[y][x].mask > 0 {
            var c := buffer.cells[y][x];
            var nc := Cell(ps[y][x].glyph, Fin(1.0), Some(ps[y][x].color), c.intensity);
            PutCells(buffer.cells, bw, bh, x, y, nc);
            buffer.cells := Put(buffer.cells, x, y, nc);
          }
        }
      }
      Screen.SameGrid(buffer.cells, Stamp(c0, ps), bw, bh);
    }
  }

  /** The packing part of _render_braille: the masks, then the glyphs,
      then one packed cell per character. */
  method PackBraille(lum: Field, cd: Option<seq<seq<RGB>>>, gradient: seq<string>, h: nat, w: nat)
    returns (packed: seq<seq<PackedCell>>)
    requires Shaped(lum, 4 * h, 2 * w) && (cd.Some? ==> Shaped(cd.value, 4 * h, 2 * w)) && |gradient| > 0
    ensures packed == BrailleCells(lum, cd, gradient, h, w)
  {
    var masks := BrailleMasks(lum, h, w);
    var chars := BrailleGlyphs(masks, h, w);
    packed := seq(h, y requires 0 <= y < h => seq(w, x requires 0 <= x < w =>
      PackedCell(chars[y][x], if masks[y][x] > 0 then 1 else 0, BrailleColor(lum, cd, gradient, h, w, y, x))));
    SamePacked(packed, BrailleCells(lum, cd, gradient, h, w), h, w);
  }

  /** A cell while _write_to_buffer runs: stamped once the loops have
      passed it (rows before y, or row y before column x). */
  ghost function StampedUpTo(c0: Grid, ps: seq<seq<PackedCell>>, y: int, x: int, j: nat, i: nat): Cell
    requires j < |c0| && i < |c0[j]|
  {
    if j < |ps| && i < |ps[j]| && (j < y || (j == y && i < x)) then StampCell(c0[j][i], ps[j][i]) else c0[j][i]
  }

  /** The nested loop of _render_braille: chars[y][x] = chr(0x2800 +
      bitmask[y][x]), filled in place. */
  method BrailleGlyphs(masks: seq<seq<nat>>, h: nat, w: nat) returns (chars: seq<seq<string>>)
    requires Shaped(masks, h, w)
    requires forall y, x :: 0 <= y < h && 0 <= x < w ==> masks[y][x] <= 255
    ensures Shaped(chars, h, w)
    ensures forall y, x :: 0 <= y < h && 0 <= x < w ==> chars[y][x] == BrailleGlyph(masks[y][x])
  {
    chars := seq(h, _ => seq(w, _ => ""));
    for y := 0 to h
      invariant Shaped(chars, h, w)
      invariant forall j, i :: 0 <= j < y && 0 <= i < w ==> chars[j][i] == BrailleGlyph(masks[j][i])
    {
      for x := 0 to w
        invariant Shaped(chars, h, w)
        invariant forall j, i :: 0 <= j < y && 0 <= i < w ==> chars[j][i] == BrailleGlyph(masks[j][i])
        invariant forall i :: 0 <= i < x ==> chars[y][i] == BrailleGlyph(masks[y][i])
      {
        chars := chars[y := chars[y][x := BrailleGlyph(masks[y][x])]];
      }
    }
  }

  lemma SamePacked(a: seq<seq<PackedCell>>, b: seq<seq<PackedCell>>, h: nat, w: nat)
    requires Shaped(a, h, w) && Shaped(b, h, w)
    requires forall y, x :: 0 <= y < h && 0 <= x < w ==> a[y][x] == b[y][x]
    ensures a == b
  {
    forall y | 0 <= y < h
      ensures a[y] == b[y]
    {
    }
  }

  /** run_shader_animation: a fresh renderer renders one frame; the
      returned pair is the fixed rotation (0, 1). */
  method RunShaderAnimation(buffer: Screen.ScreenBuffer, width: nat, height: nat, time: real,
                            themeManager: Colors.ThemeManager, shader: (Field, Field, real) -> Frame,
                            useBraille: bool)
    returns (rx: int, ry: int)
    requires height > 0 && buffer.Valid() && themeManager.Valid()
    requires var vw, vh := VirtualWidth(width, useBraille), VirtualHeight(height, useBraille);
             var aspect := width as real / height as real;
             var f := shader(MeshU(UAxis(vw, aspect), VAxis(vh)), MeshV(UAxis(vw, aspect), VAxis(vh)), time);
             && FrameFits(f, vh, vw)
             && ActiveWithin(Pack(f, DitherMap(vh, vw), themeManager.gradient, useBraille, height, width),
                             buffer.width, buffer.height)
    modifies buffer
    ensures rx == 0 && ry == 1
    ensures buffer.Valid()
    ensures var vw, vh := VirtualWidth(width, useBraille), VirtualHeight(height, useBraille);
            var aspect := width as real / height as real;
            var f := shader(MeshU(UAxis(vw, aspect), VAxis(vh)), MeshV(UAxis(vw, aspect), VAxis(vh)), time);
            buffer.cells == Stamp(old(buffer.cells), Pack(f, DitherMap(vh, vw), themeManager.gradient, useBraille, height, width))
  {
    var renderer := new ShaderRenderer(width, height, themeManager, useBraille);
    renderer.Render(buffer, time, shader);
    return 0, 1;
  }
}
