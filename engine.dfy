/** The free functions of engine.py (perspective projection, clamp,
    map_range) and the playback controls of AnimationEngine. */
module Engine {
  import opened Common
  import Colors

  // ---------------------------------------------------------------------
  // project_point / project_point_normalized

  /** The default scale: min(width, 2 * height) * 0.3. */
  function DefaultScale(width: nat, height: nat): (s: real)
    ensures s >= 0.0
    ensures width <= 2 * height ==> s == width as real * 0.3
    ensures 2 * height <= width ==> s == (2 * height) as real * 0.3
  {
    Min(width, height * 2) as real * 0.3
  }

  /** project_point: None when the point is at or behind the near plane
      z + distance <= 0.1; otherwise the screen cell, with x doubled to
      correct the character aspect ratio. */
  function ProjectPoint(x: real, y: real, z: real, width: nat, height: nat, scale: Option<real>,
                        distance: real): (r: Option<Pos>)
    ensures r.None? <==> z + distance <= 0.1
  {
    var s := if scale.None? then DefaultScale(width, height) else scale.value;
    if z + distance <= 0.1 then None
    else
      Some(ScreenCell(x, y, s / (z + distance), width, height))
  }

  /** The cell of a point once its perspective factor is known: x is
      doubled for the character aspect ratio, and both axes are offset to
      the screen centre before int(). */
  function ScreenCell(x: real, y: real, factor: real, width: nat, height: nat): Pos
  {
    CentredCell(x * factor, y * factor, width, height)
  }

  /** int() of a projected offset from the screen centre, x doubled. */
  function CentredCell(px: real, py: real, width: nat, height: nat): Pos
  {
    (Trunc(px * 2.0 + width as real / 2.0), Trunc(py + height as real / 2.0))
  }

  /** project_point_normalized: the same near-plane test, with the
      default scale applied after the perspective divide. */
  function ProjectPointNormalized(x: real, y: real, z: real, width: nat, height: nat, distance: real): (r: Option<Pos>)
    ensures r.None? <==> z + distance <= 0.1
  {
    if z + distance <= 0.1 then None
    else
      Some(NormalizedCell(x, y, 1.0 / (z + distance), DefaultScale(width, height), width, height))
  }

  /** The cell of project_point_normalized once the perspective factor
      and the scale factor are known. */
  function NormalizedCell(x: real, y: real, factor: real, scaleFactor: real, width: nat, height: nat): Pos
  {
    CentredCell(x * factor * scaleFactor, y * factor * scaleFactor, width, height)
  }

  /** A point on the view axis lands in the centre cell
      (int(width / 2), int(height / 2)), whatever its depth and scale. */
  lemma ProjectAxis(z: real, width: nat, height: nat, scale: Option<real>, distance: real)
    requires z + distance > 0.1
    ensures ProjectPoint(0.0, 0.0, z, width, height, scale, distance)
         == Some((width / 2, height / 2))
  {
    var s := if scale.None? then DefaultScale(width, height) else scale.value;
    var factor := s / (z + distance);
    assert 0.0 * factor * 2.0 == 0.0 && 0.0 * factor == 0.0;
    HalfTrunc(width);
    HalfTrunc(height);
  }

  /** int(n / 2) on a non-negative integer is n // 2. */
  lemma HalfTrunc(n: nat)
    ensures Trunc(n as real / 2.0) == n / 2
  {
    var q := n / 2;
    assert n as real / 2.0 == q as real + (n % 2) as real / 2.0;
  }

  /** Both projections agree: scaling before or after the perspective
      divide gives the same cell (over exact reals). */
  lemma ProjectNormalizedAgrees(x: real, y: real, z: real, width: nat, height: nat, distance: real)
    ensures ProjectPointNormalized(x, y, z, width, height, distance)
         == ProjectPoint(x, y, z, width, height, None, distance)
  {
    var d := z + distance;
    if d > 0.1 {
      var s := DefaultScale(width, height);
      DivideThenScale(x, s, d);
      DivideThenScale(y, s, d);
      SameCell(x, y, s, 1.0 / d, s / d, width, height);
    }
  }

  /** The two cells agree once the scaled offsets agree. */
  lemma SameCell(x: real, y: real, s: real, f: real, q: real, width: nat, height: nat)
    requires x * f * s == x * q && y * f * s == y * q
    ensures NormalizedCell(x, y, f, s, width, height) == ScreenCell(x, y, q, width, height)
  {
    CentredCellCongruent(x * f * s, x * q, y * f * s, y * q, width, height);
  }

  lemma CentredCellCongruent(px: real, px': real, py: real, py': real, width: nat, height: nat)
    requires px == px' && py == py'
    ensures CentredCell(px, py, width, height) == CentredCell(px', py', width, height)
  {
  }

  lemma DivideThenScale(x: real, s: real, d: real)
    requires d != 0.0
    ensures x * (1.0 / d) * s == x * (s / d)
  {
    assert (1.0 / d) * s == s / d;
  }

  /** With a non-negative scale, moving a point right (or down) never moves
      its cell left (or up). */
  lemma ProjectMonotone(x: real, y: real, x': real, y': real, z: real, width: nat, height: nat,
                        scale: Option<real>, distance: real)
    requires z + distance > 0.1
    requires scale.Some? ==> scale.value >= 0.0
    requires x <= x' && y <= y'
    ensures var p, q := ProjectPoint(x, y, z, width, height, scale, distance),
                        ProjectPoint(x', y', z, width, height, scale, distance);
      p.value.0 <= q.value.0 && p.value.1 <= q.value.1
  {
    var s := if scale.None? then DefaultScale(width, height) else scale.value;
    NonNegQuotient(s, z + distance);
    ScreenCellMonotone(x, y, x', y', s / (z + distance), width, height);
  }

  lemma ScreenCellMonotone(x: real, y: real, x': real, y': real, factor: real, width: nat, height: nat)
    requires x <= x' && y <= y' && factor >= 0.0
    ensures ScreenCell(x, y, factor, width, height).0 <= ScreenCell(x', y', factor, width, height).0
    ensures ScreenCell(x, y, factor, width, height).1 <= ScreenCell(x', y', factor, width, height).1
  {
    var w, h := width as real / 2.0, height as real / 2.0;
    assert x * factor * 2.0 + w <= x' * factor * 2.0 + w by {
      assert (x' - x) * factor * 2.0 >= 0.0;
    }
    assert y * factor + h <= y' * factor + h by {
      assert (y' - y) * factor >= 0.0;
    }
    TruncMonotone(x * factor * 2.0 + w, x' * factor * 2.0 + w);
    TruncMonotone(y * factor + h, y' * factor + h);
  }

  lemma NonNegQuotient(s: real, d: real)
    requires s >= 0.0 && d > 0.0
    ensures s / d >= 0.0
  {
  }

  // ---------------------------------------------------------------------
  // clamp / map_range

  /** clamp: max(lo, min(hi, v)); when lo > hi the lower bound wins. */
  function Clamp(value: real, lo: real, hi: real): (r: real)
    ensures lo <= hi ==> lo <= r <= hi
    ensures lo <= value <= hi ==> r == value
    ensures value <= lo || hi < lo ==> r == lo
    ensures lo <= hi <= value ==> r == hi
  {
    MaxReal(lo, MinReal(hi, value))
  }

  /** map_range: the affine map taking [inMin, inMax] onto
      [outMin, outMax]; a degenerate input range maps everything to
      outMin. */
  function MapRange(value: real, inMin: real, inMax: real, outMin: real, outMax: real): (r: real)
    ensures inMax == inMin ==> r == outMin
    ensures value == inMin ==> r == outMin
  {
    if inMax == inMin then outMin
    else (value - inMin) * (outMax - outMin) / (inMax - inMin) + outMin
  }

  /** The upper end of the input range maps to the upper end of the
      output range. */
  lemma MapRangeUpper(inMin: real, inMax: real, outMin: real, outMax: real)
    requires inMax != inMin
    ensures MapRange(inMax, inMin, inMax, outMin, outMax) == outMax
  {
    var d := inMax - inMin;
    assert d * (outMax - outMin) / d == outMax - outMin;
  }

  /** Mapping a value there and back again returns it, when neither range
      is degenerate. */
  lemma MapRangeInverse(value: real, inMin: real, inMax: real, outMin: real, outMax: real)
    requires inMax != inMin && outMax != outMin
    ensures MapRange(MapRange(value, inMin, inMax, outMin, outMax), outMin, outMax, inMin, inMax) == value
  {
    var a, b := inMax - inMin, outMax - outMin;
    var m := MapRange(value, inMin, inMax, outMin, outMax);
    assert m - outMin == (value - inMin) * b / a;
    assert (m - outMin) * a == (value - inMin) * b;
    assert (m - outMin) * a / b == value - inMin;
  }

  // ---------------------------------------------------------------------
  // AnimationEngine: speed, frame rate, pause and the stats line

  const SpeedPresets: seq<real> := [0.25, 0.5, 1.0, 2.0, 5.0, 10.0]

  /** The preset index after increase_speed: one up, stopping at the top. */
  function IncreasedIndex(i: int): (j: int)
    requires 0 <= i < |SpeedPresets|
    ensures 0 <= j < |SpeedPresets|
    ensures i < |SpeedPresets| - 1 ==> j == i + 1
    ensures i == |SpeedPresets| - 1 ==> j == i
  {
    if i < |SpeedPresets| - 1 then i + 1 else i
  }

  /** The preset index after decrease_speed: one down, stopping at 0. */
  function DecreasedIndex(i: int): (j: int)
    requires 0 <= i < |SpeedPresets|
    ensures 0 <= j < |SpeedPresets|
    ensures 0 < i ==> j == i - 1
    ensures i == 0 ==> j == 0
  {
    if i > 0 then i - 1 else i
  }

  /** Slowing down after speeding up returns to the same preset, except
      from the top preset, where speeding up does nothing. */
  lemma DecreaseAfterIncrease(i: int)
    requires 0 <= i < |SpeedPresets| - 1
    ensures DecreasedIndex(IncreasedIndex(i)) == i
  {
  }

  /** Speeding up after slowing down returns to the same preset, except
      from preset 0. */
  lemma IncreaseAfterDecrease(i: int)
    requires 0 < i < |SpeedPresets|
    ensures IncreasedIndex(DecreasedIndex(i)) == i
  {
  }

  /** The presets increase strictly, so each step up is faster. */
  lemma PresetsIncrease(i: int, j: int)
    requires 0 <= i < j < |SpeedPresets|
    ensures SpeedPresets[i] < SpeedPresets[j]
  {
  }

  /** f"{v:.2f}" for a non-negative value: rounded to hundredths (ties to
      even), then the integer part, a point and two digits. */
  function Fixed2(v: real): (s: string)
    requires v >= 0.0
    ensures |s| >= 4 && s[|s| - 3] == '.'
    ensures forall i :: 0 <= i < |s| && i != |s| - 3 ==> IsDigit(s[i])
  {
    var n := Hundredths(v);
    NatToString(n / 100) + "." + [DigitChar(n % 100 / 10), DigitChar(n % 10)]
  }

  /** v * 100 rounded to the nearest integer, ties to even. */
  function Hundredths(v: real): (n: nat)
    requires v >= 0.0
    ensures n as real - 0.5 <= v * 100.0 <= n as real + 0.5
  {
    var m := v * 100.0;
    var f := m.Floor;
    if m - f as real > 0.5 || (m - f as real == 0.5 && f % 2 == 1) then f + 1 else f
  }

  /** The text of the stats line before it is fitted to the screen width. */
  function StatsText(name: string, themeName: string, speed: real, paused: bool): string
    requires speed >= 0.0
  {
    " " + name + " | Theme: " + themeName + " | Speed: " + Fixed2(speed)
    + "x | [Q]uit [SPACE]Pause [T]heme [+/-]Speed" + (if paused then " [PAUSED]" else "") + " "
  }

  /** Pads with spaces or cuts a string to exactly width characters. */
  function FitToWidth(s: string, width: nat): (r: string)
    ensures |r| == width
    ensures forall i :: 0 <= i < width && i < |s| ==> r[i] == s[i]
    ensures forall i :: |s| <= i < width ==> r[i] == ' '
  {
    if |s| < width then s + seq(width - |s|, _ => ' ') else s[..width]
  }

  class AnimationEngine {
    var themeManager: Colors.ThemeManager
    var speed: real
    var targetFps: int
    var paused: bool
    var running: bool
    var time: real
    var frameCount: nat
    var showStats: bool
    var speedIndex: int

    /** The speed stays within [0.1, 10] and the preset index within the
        preset list. */
    ghost predicate Valid()
      reads this
    {
      0.1 <= speed <= 10.0 && 10 <= targetFps <= 120 && 0 <= speedIndex < |SpeedPresets|
    }

    constructor ()
      ensures Valid() && fresh(themeManager) && themeManager.Valid()
      ensures themeManager.currentTheme == "matrix"
      ensures speed == 0.5 && targetFps == 20 && !paused && !running && showStats
      ensures speedIndex == 1 && speed == SpeedPresets[speedIndex]
      ensures time == 0.0 && frameCount == 0
    {
      Colors.ResolveKey(0);
      themeManager := new Colors.ThemeManager(Colors.ThemeList[0]);
      speed := 0.5;
      targetFps := 20;
      paused := false;
      running := false;
      time := 0.0;
      frameCount := 0;
      showStats := true;
      speedIndex := 1;
    }

    /** set_speed: the requested speed clamped to [0.1, 10]. */
    method SetSpeed(s: real)
      modifies this
      requires Valid()
      ensures Valid()
      ensures speed == Clamp(s, 0.1, 10.0)
      ensures speedIndex == old(speedIndex) && paused == old(paused) && targetFps == old(targetFps)
      ensures showStats == old(showStats) && running == old(running)
      ensures time == old(time) && frameCount == old(frameCount)
      ensures themeManager == old(themeManager)
    {
      speed := MaxReal(0.1, MinReal(10.0, s));
    }

    /** increase_speed: the next preset up, if there is one. */
    method IncreaseSpeed() returns (r: real)
      modifies this
      requires Valid()
      ensures Valid()
      ensures speedIndex == IncreasedIndex(old(speedIndex))
      ensures old(speedIndex) < |SpeedPresets| - 1 ==> speed == SpeedPresets[speedIndex]
      ensures old(speedIndex) == |SpeedPresets| - 1 ==> speed == old(speed)
      ensures r == speed && paused == old(paused) && targetFps == old(targetFps)
      ensures showStats == old(showStats) && running == old(running)
      ensures time == old(time) && frameCount == old(frameCount)
      ensures themeManager == old(themeManager)
    {
      if speedIndex < |SpeedPresets| - 1 {
        speedIndex := speedIndex + 1;
        speed := SpeedPresets[speedIndex];
      }
      return speed;
    }

    /** decrease_speed: the next preset down, if there is one. */
    method DecreaseSpeed() returns (r: real)
      modifies this
      requires Valid()
      ensures Valid()
      ensures speedIndex == DecreasedIndex(old(speedIndex))
      ensures old(speedIndex) > 0 ==> speed == SpeedPresets[speedIndex]
      ensures old(speedIndex) == 0 ==> speed == old(speed)
      ensures r == speed && paused == old(paused) && targetFps == old(targetFps)
      ensures showStats == old(showStats) && running == old(running)
      ensures time == old(time) && frameCount == old(frameCount)
      ensures themeManager == old(themeManager)
    {
      if speedIndex > 0 {
        speedIndex := speedIndex - 1;
        speed := SpeedPresets[speedIndex];
      }
      return speed;
    }

    /** set_fps: the requested rate clamped to [10, 120]. */
    method SetFps(fps: int)
      modifies this
      requires Valid()
      ensures Valid()
      ensures targetFps == ClipInt(fps, 10, 120)
      ensures speed == old(speed) && speedIndex == old(speedIndex) && paused == old(paused)
      ensures showStats == old(showStats) && running == old(running)
      ensures time == old(time) && frameCount == old(frameCount)
      ensures themeManager == old(themeManager)
    {
      targetFps := Max(10, Min(120, fps));
    }

    /** toggle_pause: paused flips and the new value is returned. */
    method TogglePause() returns (p: bool)
      modifies this
      requires Valid()
      ensures Valid()
      ensures paused == !old(paused) && p == paused
      ensures speed == old(speed) && speedIndex == old(speedIndex) && showStats == old(showStats)
      ensures targetFps == old(targetFps) && running == old(running)
      ensures time == old(time) && frameCount == old(frameCount)
      ensures themeManager == old(themeManager)
    {
      paused := !paused;
      return paused;
    }

    /** toggle_stats: show_stats flips and the new value is returned. */
    method ToggleStats() returns (shown: bool)
      modifies this
      requires Valid()
      ensures Valid()
      ensures showStats == !old(showStats) && shown == showStats
      ensures speed == old(speed) && speedIndex == old(speedIndex) && paused == old(paused)
      ensures targetFps == old(targetFps) && running == old(running)
      ensures time == old(time) && frameCount == old(frameCount)
      ensures themeManager == old(themeManager)
    {
      showStats := !showStats;
      return showStats;
    }

    /** _get_stats_line: exactly width characters, the stats text padded
        with spaces or cut short. */
    function StatsLine(name: string, width: nat): (s: string)
      reads this, themeManager
      requires Valid()
      ensures |s| == width
      ensures var t := StatsText(name, themeManager.theme.name, speed, paused);
        && (forall i :: 0 <= i < width && i < |t| ==> s[i] == t[i])
        && (forall i :: |t| <= i < width ==> s[i] == ' ')
    {
      FitToWidth(StatsText(name, themeManager.theme.name, speed, paused), width)
    }
  }

  /** Speeding up and then slowing down from below the top preset lands
      back on the starting preset and its speed. */
  method SpeedUpThenDown(e: AnimationEngine)
    requires e.Valid() && e.speedIndex < |SpeedPresets| - 1 && e.speed == SpeedPresets[e.speedIndex]
    modifies e
    ensures e.Valid() && e.speedIndex == old(e.speedIndex) && e.speed == old(e.speed)
  {
    var _ := e.IncreaseSpeed();
    var _ := e.DecreaseSpeed();
  }
}
