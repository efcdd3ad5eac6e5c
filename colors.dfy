/** Colour codes, the theme table and depth-to-colour lookup (colors.py). */
module Colors {
  import opened Common

  const Esc: string := "\U{1B}"
  const Reset: string := Esc + "[0m"
  const BgBlack: string := Esc + "[40m"
  const BrightRed: string := Esc + "[91m"
  const BrightGreen: string := Esc + "[92m"
  const BrightYellow: string := Esc + "[93m"
  const BrightMagenta: string := Esc + "[95m"
  const BrightCyan: string := Esc + "[96m"
  const BrightWhite: string := Esc + "[97m"

  /** Default character ramp for depth shading, sparse to dense. */
  const LuminanceChars: string := " .,-~:;=!*#$@"

  const FgRgbPrefix: string := Esc + "[38;2;"
  const Fg256Prefix: string := Esc + "[38;5;"

  /** Foreground true-colour code ESC[38;2;r;g;bm. */
  function FgRgb(r: int, g: int, b: int): string
  {
    FgRgbPrefix + IntToString(r) + ";" + IntToString(g) + ";" + IntToString(b) + "m"
  }

  /** Foreground 256-colour palette code ESC[38;5;nm. */
  function Fg256(n: int): string
  {
    Fg256Prefix + IntToString(n) + "m"
  }

  /** Reads one decimal field that ends with the separator sep, giving
      its value and what follows the separator. */
  function ParseField(s: string, sep: char): Option<(nat, string)>
  {
    var d := TakeDigits(s).0;
    var rest := TakeDigits(s).1;
    if d == [] || rest == [] || rest[0] != sep then None
    else Some((ParseNat(d), rest[1..]))
  }

  lemma ParseFieldOf(n: nat, sep: char, tail: string)
    requires !IsDigit(sep)
    ensures ParseField(NatToString(n) + [sep] + tail, sep) == Some((n, tail))
  {
    var d := NatToString(n);
    var s := d + [sep] + tail;
    assert s == d + ([sep] + tail);
    TakeDigitsOfNumber(d, [sep] + tail);
    ParseNatToString(n);
    assert ([sep] + tail)[1..] == tail;
  }

  /** Reads a true-colour code back into its three components. */
  function ParseFgRgb(s: string): Option<(nat, nat, nat)>
  {
    var p := |FgRgbPrefix|;
    if |s| < p || s[..p] != FgRgbPrefix then None
    else
      var f1 := ParseField(s[p..], ';');
      if f1.None? then None
      else
        var f2 := ParseField(f1.value.1, ';');
        if f2.None? then None
        else
          var f3 := ParseField(f2.value.1, 'm');
          if f3.None? || f3.value.1 != [] then None
          else Some((f1.value.0, f2.value.0, f3.value.0))
  }

  /** The true-colour code is the prefix followed by the three decimal
      fields, each closed by its separator. */
  lemma FgRgbLayout(r: nat, g: nat, b: nat)
    ensures FgRgb(r, g, b)
         == FgRgbPrefix + (NatToString(r) + [';'] + (NatToString(g) + [';'] + (NatToString(b) + ['m'])))
  {
    Regroup(FgRgbPrefix, NatToString(r), NatToString(g), NatToString(b));
  }

  lemma Regroup(p: string, x: string, y: string, z: string)
    ensures p + x + ";" + y + ";" + z + "m" == p + (x + [';'] + (y + [';'] + (z + ['m'])))
  {
    assert y + [';'] + (z + ['m']) == y + ";" + z + "m";
    assert x + [';'] + (y + ";" + z + "m") == x + ";" + y + ";" + z + "m";
  }

  /** Reading a true-colour code back gives the components it was made
      from, so distinct colours always get distinct codes. */
  lemma ParseFgRgbRoundTrip(r: nat, g: nat, b: nat)
    ensures ParseFgRgb(FgRgb(r, g, b)) == Some((r, g, b))
  {
    var t3 := NatToString(b) + ['m'];
    var t2 := NatToString(g) + [';'] + t3;
    var t1 := NatToString(r) + [';'] + t2;
    var s := FgRgb(r, g, b);
    var p := |FgRgbPrefix|;
    FgRgbLayout(r, g, b);
    assert s[..p] == FgRgbPrefix && s[p..] == t1;
    ParseFieldOf(r, ';', t2);
    ParseFieldOf(g, ';', t3);
    ParseFieldOf(b, 'm', []);
    assert t3 == NatToString(b) + ['m'] + [];
  }

  lemma FgRgbInjective(r: nat, g: nat, b: nat, r': nat, g': nat, b': nat)
    requires FgRgb(r, g, b) == FgRgb(r', g', b')
    ensures r == r' && g == g' && b == b'
  {
    ParseFgRgbRoundTrip(r, g, b);
    ParseFgRgbRoundTrip(r', g', b');
  }

  /** The number inside a 256-colour code ESC[38;5;nm. */
  function Fg256Number(s: string): Option<nat>
  {
    var p := |Fg256Prefix|;
    if |s| < p + 1 || s[..p] != Fg256Prefix || s[|s| - 1] != 'm' then None
    else
      var digits := s[p..|s| - 1];
      if |digits| > 0 && forall i :: 0 <= i < |digits| ==> IsDigit(digits[i]) then Some(ParseNat(digits)) else None
  }

  /** fg_256 of a palette number reads back as that number, so distinct
      numbers give distinct codes. */
  lemma Fg256RoundTrip(n: nat)
    ensures Fg256Number(Fg256(n)) == Some(n)
  {
    var s := Fg256(n);
    var p := |Fg256Prefix|;
    assert s == Fg256Prefix + NatToString(n) + "m";
    assert s[..p] == Fg256Prefix;
    assert s[p..|s| - 1] == NatToString(n);
    ParseNatToString(n);
  }

  datatype Theme = Theme(name: string, description: string, gradient: seq<string>,
                         background: string, accent: string)

  /** The THEMES dictionary, in its insertion order. */
  const ThemeEntries: seq<(string, Theme)> :=
  [
    ("matrix", Theme("Matrix", "Classic hacker green terminal",
      [ FgRgb(0, 30, 0), FgRgb(0, 50, 0), FgRgb(0, 75, 0), FgRgb(0, 100, 0), FgRgb(0, 130, 0),
        FgRgb(0, 160, 0), FgRgb(0, 190, 0), FgRgb(0, 220, 0), FgRgb(50, 240, 50), FgRgb(100, 255, 100) ],
      BgBlack, BrightWhite)),
    ("fire", Theme("Fire", "Warm flames from red to yellow",
      [ FgRgb(40, 0, 0), FgRgb(80, 10, 0), FgRgb(120, 25, 0), FgRgb(160, 45, 0), FgRgb(200, 70, 0),
        FgRgb(230, 100, 0), FgRgb(255, 130, 0), FgRgb(255, 170, 20), FgRgb(255, 210, 60), FgRgb(255, 255, 100) ],
      BgBlack, BrightWhite)),
    ("ocean", Theme("Ocean", "Cool blue depths",
      [ FgRgb(0, 10, 40), FgRgb(0, 25, 70), FgRgb(0, 45, 100), FgRgb(0, 70, 130), FgRgb(0, 100, 160),
        FgRgb(0, 130, 190), FgRgb(30, 160, 210), FgRgb(70, 190, 230), FgRgb(120, 220, 245), FgRgb(180, 255, 255) ],
      BgBlack, BrightWhite)),
    ("neon", Theme("Neon", "Cyberpunk magenta and purple",
      [ FgRgb(20, 0, 40), FgRgb(40, 0, 70), FgRgb(70, 0, 100), FgRgb(100, 0, 140), FgRgb(140, 20, 170),
        FgRgb(170, 50, 200), FgRgb(200, 80, 220), FgRgb(220, 120, 240), FgRgb(240, 160, 250), FgRgb(255, 200, 255) ],
      BgBlack, BrightCyan)),
    ("void", Theme("Void", "Minimalist grayscale",
      [ FgRgb(20, 20, 20), FgRgb(45, 45, 45), FgRgb(70, 70, 70), FgRgb(95, 95, 95), FgRgb(120, 120, 120),
        FgRgb(150, 150, 150), FgRgb(180, 180, 180), FgRgb(210, 210, 210), FgRgb(235, 235, 235), FgRgb(255, 255, 255) ],
      BgBlack, BrightWhite)),
    ("sunset", Theme("Sunset", "Warm orange to purple gradient",
      [ FgRgb(30, 0, 50), FgRgb(60, 0, 70), FgRgb(100, 15, 70), FgRgb(140, 35, 60), FgRgb(180, 60, 45),
        FgRgb(210, 90, 30), FgRgb(235, 130, 20), FgRgb(250, 170, 40), FgRgb(255, 200, 80), FgRgb(255, 230, 140) ],
      BgBlack, BrightYellow)),
    ("arctic", Theme("Arctic", "Icy blue and white",
      [ FgRgb(10, 20, 50), FgRgb(25, 45, 80), FgRgb(45, 75, 120), FgRgb(70, 110, 160), FgRgb(100, 145, 195),
        FgRgb(130, 175, 220), FgRgb(165, 200, 235), FgRgb(195, 220, 245), FgRgb(220, 240, 252), FgRgb(245, 252, 255) ],
      BgBlack, BrightCyan)),
    ("forest", Theme("Forest", "Natural green and brown",
      [ FgRgb(20, 10, 5), FgRgb(35, 25, 10), FgRgb(50, 45, 15), FgRgb(60, 70, 25), FgRgb(75, 100, 40),
        FgRgb(90, 130, 55), FgRgb(110, 160, 70), FgRgb(130, 190, 90), FgRgb(160, 215, 115), FgRgb(200, 240, 150) ],
      BgBlack, BrightGreen)),
    ("blood", Theme("Blood", "Deep crimson intensity",
      [ FgRgb(15, 0, 0), FgRgb(35, 0, 0), FgRgb(60, 5, 5), FgRgb(90, 10, 10), FgRgb(120, 15, 15),
        FgRgb(155, 25, 25), FgRgb(190, 35, 35), FgRgb(220, 50, 50), FgRgb(245, 70, 70), FgRgb(255, 100, 100) ],
      BgBlack, BrightRed)),
    ("gold", Theme("Gold", "Luxurious golden tones",
      [ FgRgb(40, 25, 0), FgRgb(70, 45, 0), FgRgb(100, 65, 5), FgRgb(130, 90, 10), FgRgb(160, 115, 20),
        FgRgb(190, 145, 35), FgRgb(215, 175, 55), FgRgb(235, 200, 80), FgRgb(250, 225, 110), FgRgb(255, 245, 150) ],
      BgBlack, BrightYellow)),
    ("isovalues", Theme("Isovalues", "Smooth cosine rainbow spectrum",
      [ FgRgb(255, 0, 0), FgRgb(255, 150, 0), FgRgb(255, 255, 0), FgRgb(0, 255, 0), FgRgb(0, 255, 150),
        FgRgb(0, 255, 255), FgRgb(0, 150, 255), FgRgb(0, 0, 255), FgRgb(150, 0, 255), FgRgb(255, 0, 255) ],
      BgBlack, BrightCyan)),
    ("rainbow", Theme("Rainbow", "Full spectrum depth mapping",
      [ FgRgb(148, 0, 211), FgRgb(75, 0, 130), FgRgb(0, 0, 255), FgRgb(0, 127, 255), FgRgb(0, 255, 0),
        FgRgb(127, 255, 0), FgRgb(255, 255, 0), FgRgb(255, 165, 0), FgRgb(255, 69, 0), FgRgb(255, 0, 0) ],
      BgBlack, BrightWhite)),
    ("plasma", Theme("Plasma", "Electric blue to hot pink",
      [ FgRgb(0, 0, 50), FgRgb(20, 0, 100), FgRgb(60, 0, 150), FgRgb(100, 0, 180), FgRgb(150, 30, 200),
        FgRgb(180, 70, 210), FgRgb(210, 100, 220), FgRgb(240, 130, 225), FgRgb(255, 170, 230), FgRgb(255, 220, 255) ],
      BgBlack, BrightMagenta)),
    ("toxic", Theme("Toxic", "Radioactive green glow",
      [ FgRgb(0, 20, 0), FgRgb(20, 50, 0), FgRgb(50, 90, 0), FgRgb(80, 130, 0), FgRgb(120, 170, 0),
        FgRgb(160, 200, 20), FgRgb(200, 230, 50), FgRgb(220, 250, 80), FgRgb(240, 255, 120), FgRgb(255, 255, 180) ],
      BgBlack, BrightGreen)),
    ("copper", Theme("Copper", "Warm metallic copper tones",
      [ FgRgb(30, 15, 10), FgRgb(60, 30, 20), FgRgb(90, 50, 30), FgRgb(125, 70, 40), FgRgb(160, 95, 55),
        FgRgb(185, 120, 75), FgRgb(210, 150, 100), FgRgb(230, 180, 130), FgRgb(245, 210, 165), FgRgb(255, 235, 200) ],
      BgBlack, BrightYellow)),
    ("lavender", Theme("Lavender", "Soft purple pastels",
      [ FgRgb(40, 20, 60), FgRgb(65, 40, 90), FgRgb(90, 60, 120), FgRgb(115, 85, 150), FgRgb(145, 110, 175),
        FgRgb(170, 140, 200), FgRgb(195, 170, 220), FgRgb(215, 195, 235), FgRgb(235, 220, 248), FgRgb(250, 245, 255) ],
      BgBlack, BrightMagenta))
  ]

  const ThemeCount: nat := 16

  /** THEME_LIST: the keys of the table, in order. */
  const ThemeList: seq<string> :=
    ["matrix", "fire", "ocean", "neon", "void", "sunset", "arctic", "forest",
     "blood", "gold", "isovalues", "rainbow", "plasma", "toxic", "copper", "lavender"]

  /** THEME_LIST lists the keys of the table in the table's order. */
  lemma ThemeListIsKeys()
    ensures |ThemeList| == |ThemeEntries| == ThemeCount
    ensures forall i :: 0 <= i < |ThemeList| ==> ThemeList[i] == ThemeEntries[i].0
  {
  }

  /** Every theme of the table has exactly ten gradient stops. */
  lemma GradientsHaveTenStops()
    ensures |ThemeEntries| == ThemeCount
    ensures forall i :: 0 <= i < |ThemeEntries| ==> |ThemeEntries[i].1.gradient| == 10
  {
  }

  /** The keys of the table are pairwise distinct. */
  lemma ThemeKeysDistinct()
    ensures forall i, j :: 0 <= i < j < |ThemeList| ==> ThemeList[i] != ThemeList[j]
  {
  }

  /** No key holds an upper-case letter, so lower-casing a key gives the key. */
  lemma KeysAreLowerCase(i: nat)
    requires i < ThemeCount
    ensures Lower(ThemeList[i]) == ThemeList[i]
  {
    var k := ThemeList[i];
    if i < 4 {
      KeysNoUpper1();
    } else if i < 8 {
      KeysNoUpper2();
    } else if i < 12 {
      KeysNoUpper3();
    } else {
      KeysNoUpper4();
    }
    assert NoUpper(k);
    LowerOfNoUpper(k);
  }

  /** set_theme on a key of the table selects that key. */
  lemma ResolveKey(i: nat)
    requires i < ThemeCount
    ensures ResolveTheme(ThemeList[i]) == ThemeList[i]
  {
    KeysAreLowerCase(i);
  }

  lemma KeysNoUpper1()
    ensures NoUpper("matrix") && NoUpper("fire") && NoUpper("ocean") && NoUpper("neon")
  {
  }

  lemma KeysNoUpper2()
    ensures NoUpper("void") && NoUpper("sunset") && NoUpper("arctic") && NoUpper("forest")
  {
  }

  lemma KeysNoUpper3()
    ensures NoUpper("blood") && NoUpper("gold") && NoUpper("isovalues") && NoUpper("rainbow")
  {
  }

  lemma KeysNoUpper4()
    ensures NoUpper("plasma") && NoUpper("toxic") && NoUpper("copper") && NoUpper("lavender")
  {
  }

  predicate NoUpper(s: string)
  {
    s == [] || (!('A' <= s[0] <= 'Z') && NoUpper(s[1..]))
  }

  lemma {:induction false} LowerOfNoUpper(s: string)
    requires NoUpper(s)
    ensures Lower(s) == s
  {
    if s != [] {
      LowerOfNoUpper(s[1..]);
    }
  }

  /** list.index: the first position holding k. */
  function IndexOf(s: seq<string>, k: string): (i: nat)
    requires k in s
    ensures i < |s| && s[i] == k
    ensures forall j :: 0 <= j < i ==> s[j] != k
  {
    if s[0] == k then 0 else 1 + IndexOf(s[1..], k)
  }

  /** The position of a theme key in THEME_LIST. */
  function KeyIndex(k: string): (i: nat)
    requires k in ThemeList
    ensures i < ThemeCount && ThemeList[i] == k
  {
    IndexOf(ThemeList, k)
  }

  lemma KeyIndexOfListed(i: nat)
    requires i < ThemeCount
    ensures KeyIndex(ThemeList[i]) == i
  {
    ThemeKeysDistinct();
  }

  /** THEMES[k] */
  function ThemeNamed(k: string): (t: Theme)
    requires k in ThemeList
    ensures |t.gradient| == 10
    ensures t == ThemeEntries[KeyIndex(k)].1
  {
    GradientsHaveTenStops();
    ThemeEntries[KeyIndex(k)].1
  }

  /** str.lower() restricted to ASCII letters. */
  function Lower(s: string): (r: string)
    ensures |r| == |s|
    ensures forall i :: 0 <= i < |s| ==> (('A' <= s[i] <= 'Z') ==> r[i] as int == s[i] as int + 32)
    ensures forall i :: 0 <= i < |s| ==> (!('A' <= s[i] <= 'Z') ==> r[i] == s[i])
  {
    if s == [] then []
    else
      var c := s[0];
      var lc := if 'A' <= c <= 'Z' then ((c as int) + 32) as char else c;
      [lc] + Lower(s[1..])
  }

  /** The key set_theme settles on: the lower-cased name when it is a key,
      "matrix" otherwise. */
  function ResolveTheme(name: string): (k: string)
    ensures k in ThemeList
    ensures Lower(name) in ThemeList ==> k == Lower(name)
    ensures Lower(name) !in ThemeList ==> k == "matrix"
  {
    if Lower(name) in ThemeList then Lower(name) else "matrix"
  }

  function NextIndex(i: nat): (j: nat)
    requires i < ThemeCount
    ensures j < ThemeCount
    ensures j == if i == ThemeCount - 1 then 0 else i + 1
  {
    (i + 1) % ThemeCount
  }

  function PrevIndex(i: nat): (j: nat)
    requires i < ThemeCount
    ensures j < ThemeCount
    ensures j == if i == 0 then ThemeCount - 1 else i - 1
  {
    (i - 1) % ThemeCount
  }

  /** Going back one theme after going forward one returns to the theme
      one started from, for every theme. */
  lemma PrevAfterNext(k: string)
    requires k in ThemeList
    ensures ThemeList[PrevIndex(KeyIndex(ThemeList[NextIndex(KeyIndex(k))]))] == k
  {
    var i := KeyIndex(k);
    var j := NextIndex(i);
    KeyIndexOfListed(j);
    IndexSteps(i);
  }

  lemma NextAfterPrev(k: string)
    requires k in ThemeList
    ensures ThemeList[NextIndex(KeyIndex(ThemeList[PrevIndex(KeyIndex(k))]))] == k
  {
    var i := KeyIndex(k);
    var j := PrevIndex(i);
    KeyIndexOfListed(j);
    IndexSteps(i);
  }

  /** Stepping the theme index forward and back, in either order, is the
      identity. */
  lemma IndexSteps(i: nat)
    requires i < ThemeCount
    ensures PrevIndex(NextIndex(i)) == i && NextIndex(PrevIndex(i)) == i
  {
  }

  // ---------------------------------------------------------------------
  // Depth to gradient position

  /** Nearness in [0, 1]: 1 at z_min (near), 0 at z_max (far), 0.5 when
      the range is empty. */
  function Normalized(z: real, zMin: real, zMax: real): (n: real)
    ensures 0.0 <= n <= 1.0
  {
    var raw := if zMax == zMin then 0.5 else 1.0 - (z - zMin) / (zMax - zMin);
    ClipReal(raw, 0.0, 1.0)
  }

  /** int(normalized * (len - 1)) for a gradient of the given length. */
  function ScaledIndex(n: real, len: nat): (i: nat)
    requires 0.0 <= n <= 1.0
    requires len > 0
    ensures i < len
  {
    var x := n * (len - 1) as real;
    assert x <= (len - 1) as real;
    TruncBounds(x);
    Trunc(x)
  }

  function GradientIndex(z: real, zMin: real, zMax: real, len: nat): (i: nat)
    requires len > 0
    ensures i < len
  {
    ScaledIndex(Normalized(z, zMin, zMax), len)
  }

  lemma ScaledIndexMonotone(n1: real, n2: real, len: nat)
    requires 0.0 <= n1 <= n2 <= 1.0
    requires len > 0
    ensures ScaledIndex(n1, len) <= ScaledIndex(n2, len)
  {
    var l := (len - 1) as real;
    MulMonotone(n1, n2, l);
    TruncMonotone(n1 * l, n2 * l);
  }

  lemma MulMonotone(a: real, b: real, c: real)
    requires a <= b && c >= 0.0
    ensures a * c <= b * c
  {
    assert (b - a) * c >= 0.0;
  }

  /** Anything at or nearer than z_min gets the last, brightest stop. */
  lemma NearestIsBrightest(z: real, zMin: real, zMax: real, len: nat)
    requires zMin < zMax && z <= zMin && len > 0
    ensures GradientIndex(z, zMin, zMax, len) == len - 1
  {
    assert (z - zMin) / (zMax - zMin) <= 0.0;
    assert Normalized(z, zMin, zMax) == 1.0;
  }

  /** Anything at or beyond z_max gets the first, darkest stop. */
  lemma FarthestIsDarkest(z: real, zMin: real, zMax: real, len: nat)
    requires zMin < zMax && zMax <= z && len > 0
    ensures GradientIndex(z, zMin, zMax, len) == 0
  {
    var d := zMax - zMin;
    var q := (z - zMin) / d;
    assert q * d == z - zMin;
    assert q >= 1.0;
    assert Normalized(z, zMin, zMax) == 0.0;
  }

  /** Moving away from the camera never brightens: the index does not grow
      as z grows. */
  lemma GradientIndexAntitone(z1: real, z2: real, zMin: real, zMax: real, len: nat)
    requires zMin < zMax && z1 <= z2 && len > 0
    ensures GradientIndex(z2, zMin, zMax, len) <= GradientIndex(z1, zMin, zMax, len)
  {
    var d := zMax - zMin;
    assert (z1 - zMin) / d <= (z2 - zMin) / d by {
      assert (z2 - zMin) / d - (z1 - zMin) / d == (z2 - z1) / d;
    }
    ScaledIndexMonotone(Normalized(z2, zMin, zMax), Normalized(z1, zMin, zMax), len);
  }

  /** An empty depth range puts everything at the middle of the gradient. */
  lemma FlatRangeIsMiddle(z: real, zr: real, len: nat)
    requires len > 0
    ensures GradientIndex(z, zr, zr, len) == (len - 1) / 2
  {
    var x := 0.5 * (len - 1) as real;
    assert Normalized(z, zr, zr) == 0.5;
    assert x.Floor == (len - 1) / 2 by {
      var q := (len - 1) / 2;
      assert (len - 1) == 2 * q || (len - 1) == 2 * q + 1;
    }
  }

  /** get_color_for_depth on a given gradient. */
  function DepthColor(gradient: seq<string>, z: real, zMin: real, zMax: real): (c: string)
    requires |gradient| > 0
    ensures c in gradient
  {
    gradient[GradientIndex(z, zMin, zMax, |gradient|)]
  }

  /** get_char_for_depth: a character of the set and the colour
      get_color_for_depth gives for the same depth. */
  function DepthChar(gradient: seq<string>, charSet: string, z: real, zMin: real, zMax: real): (r: (char, string))
    requires |gradient| > 0 && |charSet| > 0
    ensures r.0 == charSet[GradientIndex(z, zMin, zMax, |charSet|)]
    ensures r.1 == DepthColor(gradient, z, zMin, zMax)
  {
    var n := Normalized(z, zMin, zMax);
    (charSet[ScaledIndex(n, |charSet|)], DepthColor(gradient, z, zMin, zMax))
  }

  /** colorize: the stop chosen by the clamped normalised depth, the text,
      then a reset. */
  function Colorize(gradient: seq<string>, text: string, depthNormalized: real): (s: string)
    requires |gradient| > 0
    ensures exists i :: 0 <= i < |gradient| && s == gradient[i] + text + Reset
    ensures 1.0 <= depthNormalized ==> s == gradient[|gradient| - 1] + text + Reset
    ensures depthNormalized <= 0.0 ==> s == gradient[0] + text + Reset
  {
    var d := ClipReal(depthNormalized, 0.0, 1.0);
    var i := ScaledIndex(d, |gradient|);
    assert 1.0 <= depthNormalized ==> d == 1.0 && i == |gradient| - 1;
    gradient[i] + text + Reset
  }

  // ---------------------------------------------------------------------
  // ThemeManager

  class ThemeManager {
    var currentTheme: string
    var theme: Theme
    var gradient: seq<string>

    ghost predicate Valid()
      reads this
    {
      currentTheme in ThemeList && theme == ThemeNamed(currentTheme) && gradient == theme.gradient
    }

    constructor (themeName: string)
      ensures Valid() && currentTheme == ResolveTheme(themeName)
    {
      var k := ResolveTheme(themeName);
      currentTheme := k;
      theme := ThemeNamed(k);
      gradient := ThemeNamed(k).gradient;
    }

    method SetTheme(themeName: string)
      modifies this
      ensures Valid() && currentTheme == ResolveTheme(themeName)
    {
      var k := ResolveTheme(themeName);
      currentTheme := k;
      theme := ThemeNamed(k);
      gradient := theme.gradient;
    }

    method NextTheme() returns (name: string)
      requires Valid()
      modifies this
      ensures Valid()
      ensures currentTheme == ThemeList[NextIndex(KeyIndex(old(currentTheme)))]
      ensures name == theme.name
    {
      var i := NextIndex(KeyIndex(currentTheme));
      KeysAreLowerCase(i);
      SetTheme(ThemeList[i]);
      name := theme.name;
    }

    method PrevTheme() returns (name: string)
      requires Valid()
      modifies this
      ensures Valid()
      ensures currentTheme == ThemeList[PrevIndex(KeyIndex(old(currentTheme)))]
      ensures name == theme.name
    {
      var i := PrevIndex(KeyIndex(currentTheme));
      KeysAreLowerCase(i);
      SetTheme(ThemeList[i]);
      name := theme.name;
    }

    function GetColorForDepth(z: real, zMin: real, zMax: real): (c: string)
      requires Valid()
      reads this
      ensures c in gradient
    {
      DepthColor(gradient, z, zMin, zMax)
    }

    function GetAccent(): (c: string)
      requires Valid()
      reads this
      ensures c == ThemeNamed(currentTheme).accent
    {
      theme.accent
    }
  }

  /** Cycling forward then back leaves the manager on the theme it had. */
  method NextThenPrev(tm: ThemeManager)
    requires tm.Valid()
    modifies tm
    ensures tm.Valid() && tm.currentTheme == old(tm.currentTheme)
  {
    var _ := tm.NextTheme();
    var _ := tm.PrevTheme();
    PrevAfterNext(old(tm.currentTheme));
  }
}
