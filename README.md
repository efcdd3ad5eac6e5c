# ASCII Terminal Screensaver: a verified model of the rendering core

This project models, in Dafny, the rendering backend of the ASCII terminal
screensaver and the small discrete simulations of its clock animations,
and proves what each promises.

- **Compositing surface** (`common.dfy`, `surface.dfy`, `screen.dfy`).
  - `ScreenBuffer` of `engine.py` is a class whose `cells` field is a grid of cells. Each cell holds glyph, depth, colour and intensity, the four parallel lists of the source.
  - Every method (`Clear`, `SetPixel`, `SetPixelWithGlow`, `DrawLine`, `DrawThickLine`, `DrawLineSubpixel`, `Render`) is proved to leave exactly the grid that a value-level function of module `Surface` describes.
  - The properties are proved about those functions:
    - the depth test, with the first write winning a tie;
    - glow accepted by intensity and not by depth;
    - Bresenham lines that start and end at their endpoints in unit steps;
    - the thick-line copies;
    - the half-block sub-pixel line;
    - the serialiser, which emits a colour code only on a colour change, and whose rows with the codes stripped are the row's glyphs.
- **Projection and playback controls** (`engine.dfy`): `project_point`, `project_point_normalized`, `clamp`, `map_range`, and the speed, fps, pause and stats controls of `AnimationEngine`.
- **Themes** (`colors.py`, `colors.dfy`).
  - The escape-code builders.
  - The theme table: sixteen themes of ten stops each.
  - The theme manager's cycling modulo the theme list.
  - Depth-to-gradient lookup, with its normalisation, clamping and ordering.
- **Shader packing** (`shader_engine.py`, `shader.dfy`).
  - The virtual sub-pixel grid and the tiled Bayer dither map.
  - Luminance.
  - Packing into half-block glyphs or Braille glyphs (dots 1 to 8 as bits 0 to 7 of U+2800 + mask).
  - The depth-free write of active cells into the buffer.
- **Block-font text** (`animations/utils/text_render.py`, `text_render.dfy`): the font tables, text width and height, cursor layout, drawing and the text mask.
- **Clock animations** (`animations/time/`):
  - the fire clock's integer heat diffusion (`fire_clock.dfy`);
  - the life timer's Game of Life with a sticky mask, ages and fading trails (`life_timer.dfy`);
  - the snow clock's flakes and ground accumulation (`snow_clock.dfy`);
  - the typist's typing, waiting and backspacing state machine (`typist.dfy`);
  - the matrix clock's falling lines (`matrix_clock.dfy`);
  - the time mask that the life timer and matrix clock build the same way (`clock_mask.dfy`).

Randomness and the wall clock enter only as values. Each random draw, the frame time and the formatted time string are method parameters. Preconditions state the ranges `random.randint` would draw from.

Python's `int()` on a float is `Common.Trunc` (truncation toward zero). Floor division by a positive number is Dafny's `/`. Floats are exact reals.

Where the textual description of the program and its code differ, the model follows the code. The Braille cell colour is the mean over all eight sub-pixels, lit or not (`shader_engine.py:219-237`), not over the lit ones only.

## Model

| member | source | states |
|---|---|---|
| Common.TruncBounds | engine.py:66 | `int()` of a float truncates toward zero: the result is within one of the argument, on the side of zero |
| Common.TruncOfInt | engine.py:124 | `int()` of an integral value is that value |
| Common.TruncMonotone | engine.py:266-267 | `int()` never decreases as its argument grows |
| Common.ClipReal | shader_engine.py:113 | `np.clip` lands in [lo, hi], leaves values inside unchanged and sends values below/above to lo/hi |
| Common.ClipInt | shader_engine.py:168 | integer `np.clip` lands in [lo, hi] and leaves values inside unchanged |
| Common.NatToString | colors.py:52-54 | the decimal text of a number is a non-empty run of digits with no leading zero |
| Common.ParseNatToString | colors.py:52-54 | reading the decimal text back gives the number again |
| Common.NatToStringInjective | colors.py:52-54 | different numbers have different decimal texts |
| Engine.DefaultScale | engine.py:255-257 | the default scale is `min(width, 2*height) * 0.3`, never negative |
| Engine.ProjectPoint | engine.py:247-269 | the projection is None exactly when `z + distance <= 0.1` |
| Engine.ProjectPointNormalized | engine.py:272-289 | the normalized projection is None exactly when `z + distance <= 0.1` |
| Engine.ProjectAxis | engine.py:263-269 | a point on the axis, (0, 0, z) in front of the camera, lands on `(width // 2, height // 2)` |
| Engine.HalfTrunc | engine.py:266-267 | `int(n / 2)` equals `n // 2` for a non-negative n |
| Engine.ProjectNormalizedAgrees | engine.py:272-289 | the normalized projection equals `project_point` with the default scale, on every input |
| Engine.ProjectMonotone | engine.py:263-267 | with a non-negative scale, a point further right or down never projects further left or up |
| Engine.ScreenCellMonotone | engine.py:266-267 | the screen cell grows with the coordinates for a non-negative factor |
| Engine.Clamp | engine.py:481-483 | `max(lo, min(hi, v))`: within [lo, hi] when lo <= hi, v itself inside, lo below, hi above |
| Engine.MapRange | engine.py:486-490 | an empty input range gives out_min; in_min maps to out_min |
| Engine.MapRangeUpper | engine.py:486-490 | in_max maps to out_max |
| Engine.MapRangeInverse | engine.py:486-490 | mapping back with the ranges swapped returns the original value |
| Engine.IncreasedIndex | engine.py:340-345 | the preset index moves one up and stops at the last preset |
| Engine.DecreasedIndex | engine.py:347-352 | the preset index moves one down and stops at 0 |
| Engine.DecreaseAfterIncrease | engine.py:340-352 | below the top, decrease_speed undoes increase_speed |
| Engine.IncreaseAfterDecrease | engine.py:340-352 | above the bottom, increase_speed undoes decrease_speed |
| Engine.PresetsIncrease | engine.py:333 | the speed presets are strictly increasing |
| Engine.Fixed2 | engine.py:459 | `{speed:.2f}` is digits, a point, and exactly two digits after it |
| Engine.Hundredths | engine.py:459 | the two decimals round the speed to the nearest hundredth |
| Engine.FitToWidth | engine.py:461-465 | the stats text is padded with spaces or cut to exactly `width` characters, keeping its prefix |
| Engine.AnimationEngine.constructor | engine.py:322-334 | the engine starts with theme matrix, speed 0.5 at preset index 1, 20 fps, not paused, stats shown, time 0 and frame count 0 |
| Engine.AnimationEngine.SetSpeed | engine.py:336-338 | the speed becomes `max(0.1, min(10.0, s))`; every other field (index, paused, fps, stats, running, time, frame count, theme manager) stays |
| Engine.AnimationEngine.IncreaseSpeed | engine.py:340-345 | the index moves up within bounds, the speed follows the preset (unchanged at the top), and the speed is returned; every other field stays |
| Engine.AnimationEngine.DecreaseSpeed | engine.py:347-352 | the index moves down within bounds, the speed follows the preset (unchanged at 0), and the speed is returned; every other field stays |
| Engine.AnimationEngine.SetFps | engine.py:354-356 | the target fps becomes `max(10, min(120, fps))`; every other field stays |
| Engine.AnimationEngine.TogglePause | engine.py:358-361 | paused flips and the new value is returned; every other field stays |
| Engine.AnimationEngine.ToggleStats | engine.py:363-366 | show_stats flips and the new value is returned; every other field stays |
| Engine.AnimationEngine.StatsLine | engine.py:455-467 | the stats line has exactly `width` characters: the stats text's prefix, then spaces |
| Engine.SpeedUpThenDown | engine.py:340-352 | increase_speed then decrease_speed below the top restores both index and speed |
| Surface.BlankGrid | engine.py:44-50 | every cell of a fresh grid is ' ', depth +inf, no colour, intensity 0.0 |
| Surface.SetPixelEffect | engine.py:61-78 | a write succeeds exactly when the truncated point is in bounds and strictly nearer; it then sets all four fields of that one cell; nothing else changes, and a failed write changes nothing |
| Surface.SetPixelDepthNeverIncreases | engine.py:71-77 | no write ever makes any cell's depth larger |
| Surface.FirstWriteWinsTie | engine.py:72 | a second write at the same cell and depth is rejected and leaves the grid as the first write left it |
| Surface.WritesCommute | engine.py:71-77 | two writes at different depths give the same grid in either order |
| Surface.PlotAppend | engine.py:61-78 | a run of writes is the first part followed by the rest |
| Surface.PlotDepthNeverIncreases | engine.py:71-77 | after any run of writes, every cell is at most as deep as before |
| Surface.PlotKeepsNearerCell | engine.py:71-77 | a cell at depth z0 or nearer is untouched by writes that all lie behind z0 |
| Surface.PlotReachesDepth | engine.py:71-77 | after a run of writes, a cell is at most as deep as every write that landed on it |
| Surface.GlowIntensity | engine.py:105-110 | `1 / (d² + 1)` lies in (0, 1] and is at most 0.5 off the centre |
| Surface.GlowGlyph | engine.py:93-115 | the glow glyph is one character of ".:·" |
| Surface.GlowGlyphByDistance | engine.py:110-115 | the direct neighbours get ':' and every farther cell gets '·' |
| Surface.GlowEffect | engine.py:96-120 | outside the in-bounds halo a cell is unchanged; a non-blank cell never loses intensity; a changed cell has intensity `1/(d²+1)` <= 0.5, depth z+0.1, the given colour and the glyph for its distance |
| Surface.LineStart | engine.py:124-129 | the initial dx, dy, sx, sy and err satisfy the Bresenham invariant |
| Surface.LineStepProgress | engine.py:131-141 | each step keeps the invariant, moves x and y by at most 1, moves at all, and brings the end strictly closer (so the loop ends) |
| Surface.LineStepKeepsErr | engine.py:135-141 | the error term stays `dx - dy + dy*(x steps left) - dx*(y steps left)` |
| Surface.LineNoOvershoot | engine.py:135-141 | once x (or y) has arrived, the step cannot move it further |
| Surface.TraceShape | engine.py:131-141 | the traced points start at the start, end at the end, and each step is a unit step |
| Surface.LineShape | engine.py:122-141 | draw_line's points run from (x1, y1) to (x2, y2) with each step changing x and y by at most one |
| Surface.PointWritesAt | engine.py:132 | each point of the line is written with the line's glyph, depth, colour and intensity 1.0 |
| Surface.LineWritesAt | engine.py:132 | every write of a line is at the line's depth |
| Surface.ThickCopiesBehind | engine.py:149-158 | a thick line is the base line followed by copies that all lie at z+0.01 |
| Surface.ThickLineKeepsBase | engine.py:149-158 | every in-bounds point of the base line ends as the base line alone leaves it |
| Surface.SubpixelLength | engine.py:166-168 | the sub-pixel line length is at least 1 |
| Surface.SubpixelSteps | engine.py:170 | `int(length * 2)` is at least 2 |
| Surface.SubpixelWrites | engine.py:171-186 | the line writes `steps + 1` points |
| Surface.SubpixelStart | engine.py:171-186 | the first write is at `(int(x1), int(y1))` with the half block for y1 |
| Surface.SubpixelEnd | engine.py:171-186 | the last write is at `(int(x2), int(y2))` with the half block for y2 |
| Surface.SubpixelHalfBlocks | engine.py:179-184 | every write uses '▄' or '▀' |
| Surface.JoinLines | engine.py:211 | a single line is joined to itself, with no trailing newline |
| Surface.SplitJoin | engine.py:211 | splitting `'\n'.join(lines)` at its line breaks gives back exactly `lines`, when there is at least one line and no line holds a break |
| Surface.RowTextPlain | engine.py:191-209 | a rendered row holds no line break when its glyphs and colour codes hold none |
| Surface.RenderSplits | engine.py:188-211 | the frame splits back into its rendered rows, one line per row of the grid; an empty grid renders as `""` |
| Surface.StrippedPrefixIsGlyphs | engine.py:194-205 | after the first n cells, removing the codes leaves those cells' glyphs |
| Surface.StrippedRowIsGlyphs | engine.py:188-209 | removing colour codes and RESET from a rendered row leaves exactly the row's glyphs |
| Surface.TerminalCell | engine.py:198-205 | a terminal reading one cell's parts shows the glyph in the cell's colour |
| Surface.TerminalPrefix | engine.py:194-205 | after n cells the terminal shows each glyph in its own colour, with the last colour still open |
| Surface.RowShowsIntended | engine.py:188-209 | a terminal reading a rendered row shows every glyph in its own colour and ends with no colour open |
| Surface.CodesPrefix | engine.py:198-203 | among the first n cells, codes are emitted only where the colour changes |
| Surface.CodesOnlyAtChanges | engine.py:198-208 | a row has no more codes than colour changes, plus one closing RESET |
| Surface.PaintStep | animations/time/t_life_timer.py:116-139 | iterating a dictionary of writes, each at its own key, adds one key's write at a time |
| Screen.ScreenBuffer.constructor | engine.py:44-50 | a new buffer has the given size and every cell blank |
| Screen.ScreenBuffer.Clear | engine.py:52-59 | clear leaves every cell blank |
| Screen.ScreenBuffer.SetPixel | engine.py:61-78 | set_pixel truncates x and y and does what the depth-tested write does to the grid and the result |
| Screen.ScreenBuffer.SetPixelAt | engine.py:66-78 | the same, for coordinates that are already integers |
| Screen.ScreenBuffer.SetPixelWithGlow | engine.py:80-120 | the centre write at intensity 1.0, then the halo when radius > 0 and a theme manager is given |
| Screen.ScreenBuffer.DrawLine | engine.py:122-141 | the buffer becomes the grid with the truncated line's points written in order |
| Screen.ScreenBuffer.DrawLineAt | engine.py:125-141 | the Bresenham loop writes exactly the traced points, in order |
| Screen.ScreenBuffer.DrawThickLine | engine.py:143-158 | the base line, then the copies the thickness asks for |
| Screen.ScreenBuffer.DrawLineSubpixel | engine.py:160-186 | the loop writes exactly the sub-pixel points, in order |
| Screen.ScreenBuffer.Render | engine.py:188-211 | the loop builds the rows' texts joined by newlines |
| Screen.RenderRow | engine.py:192-209 | the loop over one row builds that row's text |
| Screen.GlowHalo | engine.py:96-120 | the nested halo loop leaves the grid the halo function describes |
| Screen.GlowRow | engine.py:97-120 | one pass of the inner loop covers one more row of the halo |
| Screen.ThickLineParts | engine.py:149-158 | thickness <= 1 draws the base line, 2 adds the copy at x+1, 3 or more add the copies at y+1 and (x+1, y+1) |
| Screen.RenderCell | engine.py:198-205 | a cell adds its colour code on a change to a truthy colour, RESET on a change to a falsy one, then its glyph |
| Screen.RenderRowEnd | engine.py:207-209 | a row ends with RESET exactly when a colour is still open |
| Screen.CellPartsText | engine.py:198-205 | the text one cell adds, by the three colour cases |
| Screen.PaintAll | animations/time/t_life_timer.py:116-139 | set_pixel once per dictionary entry, in any order, leaves the painted grid |
| Colors.ParseFgRgbRoundTrip | colors.py:52-54 | `fg_rgb(r, g, b)` reads back as (r, g, b) |
| Colors.FgRgbInjective | colors.py:52-54 | different colour triples give different codes |
| Colors.FgRgbLayout | colors.py:52-54 | the code is ESC[38;2; then r, ';', g, ';', b and 'm' |
| Colors.Fg256RoundTrip | colors.py:43-45 | `fg_256(n)` is ESC[38;5; n m and reads back as n |
| Colors.ThemeListIsKeys | colors.py:360 | THEME_LIST is the keys of THEMES, in order |
| Colors.GradientsHaveTenStops | colors.py:66-357 | every theme has exactly 10 gradient stops |
| Colors.ThemeKeysDistinct | colors.py:67-360 | the theme keys are pairwise distinct |
| Colors.KeysAreLowerCase | colors.py:67-357 | lowering a theme key leaves it unchanged |
| Colors.ResolveKey | colors.py:369-373 | set_theme keeps every listed key as it is |
| Colors.IndexOf | colors.py:380 | `list.index` finds the first position holding the key |
| Colors.KeyIndex | colors.py:380 | the position of a listed key holds that key |
| Colors.KeyIndexOfListed | colors.py:380 | the position of the key at position i is i |
| Colors.ThemeNamed | colors.py:375 | `THEMES[k]` is the entry for key k and has 10 stops |
| Colors.Lower | colors.py:371 | ASCII lower-casing: the length is kept, 'A'..'Z' become 'a'..'z' and every other character is kept |
| Colors.ResolveTheme | colors.py:371-373 | the lowered name if it is a theme key, "matrix" otherwise; always a listed key |
| Colors.NextIndex | colors.py:381 | `(i + 1) % len(THEME_LIST)` |
| Colors.PrevIndex | colors.py:388 | `(i - 1) % len(THEME_LIST)`, wrapping to the last key from 0 |
| Colors.IndexSteps | colors.py:381-388 | the two index moves undo each other |
| Colors.PrevAfterNext | colors.py:378-390 | prev_theme after next_theme returns to the original theme |
| Colors.NextAfterPrev | colors.py:378-390 | next_theme after prev_theme returns to the original theme |
| Colors.Normalized | colors.py:398-405 | the normalized depth always lies in [0, 1] |
| Colors.ScaledIndex | colors.py:408 | `int(n * (len - 1))` is a valid index |
| Colors.GradientIndex | colors.py:398-408 | the depth's gradient index is a valid index |
| Colors.ScaledIndexMonotone | colors.py:408 | a larger normalized value never gives a smaller index |
| Colors.NearestIsBrightest | colors.py:398-408 | `z <= z_min` picks the last (brightest) stop |
| Colors.FarthestIsDarkest | colors.py:398-408 | `z >= z_max` picks the first stop |
| Colors.GradientIndexAntitone | colors.py:398-408 | the index never increases as z grows |
| Colors.FlatRangeIsMiddle | colors.py:398-408 | with `z_max == z_min` the index is `int(0.5 * (len - 1))` |
| Colors.DepthColor | colors.py:392-409 | get_color_for_depth returns one of the gradient's stops |
| Colors.DepthChar | colors.py:411-429 | get_char_for_depth picks the character at the same normalized index in the char set, with the colour of get_color_for_depth |
| Colors.Colorize | colors.py:431-435 | the result is some stop, then the text, then RESET; the last stop at depth >= 1, the first at depth <= 0 |
| Colors.ThemeManager.constructor | colors.py:366-367 | a new manager is on the resolved theme, with theme and gradient to match |
| Colors.ThemeManager.SetTheme | colors.py:369-376 | current_theme becomes the resolved name; theme and gradient follow it |
| Colors.ThemeManager.NextTheme | colors.py:378-383 | moves to the next key, wrapping at the end, and returns the new theme's name |
| Colors.ThemeManager.PrevTheme | colors.py:385-390 | moves to the previous key, wrapping at the start, and returns the new theme's name |
| Colors.ThemeManager.GetColorForDepth | colors.py:392-409 | the colour is a stop of the current gradient |
| Colors.ThemeManager.GetAccent | colors.py:437-439 | the accent of the current theme |
| Colors.NextThenPrev | colors.py:378-390 | next_theme then prev_theme leaves the manager on its original theme |
| Shader.VirtualWidth | shader_engine.py:58-65 | the virtual width is 2W in Braille mode and W in block mode |
| Shader.VirtualHeight | shader_engine.py:58-66 | the virtual height is 4H in Braille mode and 2H in block mode |
| Shader.MeshU | shader_engine.py:89 | `meshgrid` repeats u along every row |
| Shader.MeshV | shader_engine.py:89 | `meshgrid` repeats v down every column |
| Shader.VAxisRange | shader_engine.py:79-81 | v starts at 1.0 at the top, decreases strictly, and stays in (-1, 1] |
| Shader.UAxisRange | shader_engine.py:83-86 | u starts at -aspect and stays in [-aspect, aspect) |
| Shader.Bayer | shader_engine.py:69-74 | the Bayer matrix is 4 x 4 |
| Shader.BayerRanksPermutation | shader_engine.py:69-74 | the sixteen Bayer ranks are a permutation of 0..15 |
| Shader.BayerRange | shader_engine.py:69-74 | every entry `k/16 - 0.5` lies in [-0.5, 0.4375] |
| Shader.Tile | shader_engine.py:92 | `np.tile` of the 4 x 4 matrix has 4ry rows and 4rx columns |
| Shader.DitherMap | shader_engine.py:91-93 | the dither map is virt_height x virt_width with `d[y][x] == bayer[y % 4][x % 4]` |
| Shader.Luminance | shader_engine.py:105-119 | the dithered, clipped luminance always lies in [0, 1] |
| Shader.DitherDisplacement | shader_engine.py:112-119 | the dither moves the base level by at most -0.075 / +0.065625 before clipping |
| Shader.ClipMonotone | shader_engine.py:113 | clipping to [0, 1] keeps order |
| Shader.ClipRGB | shader_engine.py:115 | every channel of the clipped colour lies in [0, 1] |
| Shader.ColorData | shader_engine.py:103-120 | colour data exists exactly for RGB frames and is the frame clipped cell by cell |
| Shader.ColorDataUnit | shader_engine.py:115 | all colour data lies in [0, 1] |
| Shader.ChannelByte | shader_engine.py:159 | `int(c * 255)` is a byte for c in [0, 1] |
| Shader.GradientStop | shader_engine.py:166-170 | the clipped gradient index always picks a stop |
| Shader.GradientStopAgrees | shader_engine.py:166-170 | for a level in [0, 1] the clip does nothing: the stop at `int(level * (len - 1))` |
| Shader.BlockMask | shader_engine.py:137-142 | `2*(top > 0.15) + (bot > 0.15)`: bit 1 is the top half, bit 0 the bottom half |
| Shader.BlockGlyphHalves | shader_engine.py:172-176 | the glyph shows the upper half exactly when mask >= 2, the lower half exactly when the mask is odd, and ' ' only for 0 |
| Shader.BlockLevel | shader_engine.py:152-164 | the level is the average of the lit halves: both averaged, top alone, bottom alone, 0 when none |
| Shader.BlockCells | shader_engine.py:128-181 | one packed cell per terminal cell, H x W |
| Shader.BlockCellGlyph | shader_engine.py:134-176 | terminal row y uses virtual rows 2y and 2y+1; the glyph shows each half exactly when it is lit; active exactly when one is |
| Shader.BlockCellGradient | shader_engine.py:160-170 | the colour is the stop for the average when both halves are lit, for the top alone, or for the bottom alone |
| Shader.DotNumber | shader_engine.py:15-27 | the standard Braille dot numbering gives each of the 4 x 2 positions a dot 1..8 |
| Shader.BraillePixelMapIsDotBits | shader_engine.py:23-38 | BRAILLE_PIXEL_MAP[r][c] is bit (dot - 1) of the standard numbering |
| Shader.Dots | shader_engine.py:190-196 | a cell has eight sub-pixel dots |
| Shader.BrailleMask | shader_engine.py:198-206 | the weighted sum of the lit dots is at most 255 |
| Shader.BrailleMaskExpanded | shader_engine.py:198-206 | the mask is the sum of each lit dot's weight |
| Shader.BinFromBits | shader_engine.py:23-27 | bit k of a binary number is its k-th bit |
| Shader.DotOrderAt | shader_engine.py:15-27 | the dot in row r, column c is bit (DotNumber - 1) in dot order |
| Shader.BinFromEight | shader_engine.py:23-27 | eight bits read as a binary number |
| Shader.BrailleMaskBits | shader_engine.py:190-206 | bit (dot - 1) of the mask is set exactly when that dot's sub-pixel is lit |
| Shader.BrailleMasks | shader_engine.py:190-206 | the mask grid is H x W and each mask is at most 255 |
| Shader.BrailleGlyph | shader_engine.py:213 | `chr(0x2800 + mask)` is one character in U+2800..U+28FF |
| Shader.BrailleExamples | shader_engine.py:33-38 | all eight lit gives 0xFF and U+28FF; only (r=0, c=1) lit gives 0x08 |
| Shader.Group | shader_engine.py:196-229 | cell (y, x) groups virtual (4y + r, 2x + c) |
| Shader.SumRealBounds | shader_engine.py:224-230 | a sum of values in [lo, hi] lies between count*lo and count*hi |
| Shader.MeanBounds | shader_engine.py:224-230 | the mean of eight values in [lo, hi] is in [lo, hi] |
| Shader.Channels | shader_engine.py:224 | each channel list is as long as the group |
| Shader.BrailleColorGradient | shader_engine.py:228-236 | the scalar colour is the stop for the mean luminance of all eight sub-pixels, lit or not |
| Shader.BrailleCells | shader_engine.py:183-240 | one packed cell per terminal cell, H x W |
| Shader.BrailleCellDots | shader_engine.py:190-213 | the glyph's code minus 0x2800 is a byte whose bit (dot - 1) is set exactly when that sub-pixel is above 0.3 |
| Shader.BrailleCellActive | shader_engine.py:215-216 | a cell is active exactly when some sub-pixel is lit |
| Shader.Stamp | shader_engine.py:242-270 | writing packed cells keeps the grid's shape |
| Shader.StampEffect | shader_engine.py:259-270 | an active cell gets the glyph, the colour and depth 1.0 with no depth test and keeps its intensity; every other cell is untouched |
| Shader.Pack | shader_engine.py:96-126 | the packed cells are H x W in both modes |
| Shader.ShaderRenderer.constructor | shader_engine.py:42-94 | the renderer keeps its size, theme manager and mode, with virtual size, axes and dither map to match |
| Shader.ShaderRenderer.Render | shader_engine.py:96-126 | the buffer is stamped with the cells packed from the shader's frame |
| Shader.ShaderRenderer.RenderBlocks | shader_engine.py:128-181 | the buffer is stamped with the block cells |
| Shader.ShaderRenderer.RenderBraille | shader_engine.py:183-240 | the buffer is stamped with the Braille cells |
| Shader.ShaderRenderer.WriteToBuffer | shader_engine.py:242-270 | the nested loop stamps exactly the active cells |
| Shader.PackBraille | shader_engine.py:188-216 | the masks, glyphs and colours built step by step are the Braille cells |
| Shader.BrailleGlyphs | shader_engine.py:210-213 | the loop fills every cell with `chr(0x2800 + mask)` |
| Shader.RunShaderAnimation | shader_engine.py:273-290 | a fresh renderer stamps the buffer with the packed frame and the result is (0, 1) |
| TextRender.Font5x3Shape | animations/utils/text_render.py:7-26 | every FONT_5x3 glyph is 5 rows of 3 columns |
| TextRender.FontHugeShape | animations/utils/text_render.py:29-43 | every FONT_HUGE glyph is 5 rows of 5 columns |
| TextRender.Font3x3Shape | animations/utils/text_render.py:46-59 | every FONT_3x3 glyph is 3 rows of 3 columns |
| TextRender.Advance | animations/utils/text_render.py:78-82 | a character advances the cursor by at least 1, by 2 when the font lacks it |
| TextRender.TextWidth | animations/utils/text_render.py:62-84 | the empty text is 0 wide |
| TextRender.RawWidthAppend | animations/utils/text_render.py:76-82 | the summed advances of two texts add up |
| TextRender.TextWidthUniform | animations/utils/text_render.py:76-84 | in a font of c-column glyphs a known text of n characters is `(c + 1) * n - 1` wide |
| TextRender.GetTextWidth | animations/utils/text_render.py:62-84 | the loop computes `max(0, S - 1)` with S the summed advances |
| TextRender.TextHeights | animations/utils/text_render.py:87-92 | the '0' glyph's row count: 5, 5 and 3 for the three fonts, 5 for a font without '0' |
| TextRender.RowPixels | animations/utils/text_render.py:124-125 | a row has at most as many lit pixels as characters |
| TextRender.RowPixelsSound | animations/utils/text_render.py:124-125 | every pixel of a row is a non-space character of it, at its own column |
| TextRender.RowPixelsIncreasing | animations/utils/text_render.py:124 | a row's pixels are visited left to right |
| TextRender.RowPixelsComplete | animations/utils/text_render.py:124-125 | every non-space character of a row is drawn |
| TextRender.GlyphPixelsSound | animations/utils/text_render.py:123-134 | every pixel of a glyph is a non-space character at (x + column, y + row) |
| TextRender.GlyphPixelsIncreasing | animations/utils/text_render.py:123-124 | a glyph's pixels are visited row by row, left to right |
| TextRender.GlyphPixelsComplete | animations/utils/text_render.py:123-134 | every non-space pixel of a glyph is drawn at (x + column, y + row) |
| TextRender.TextPixelsComplete | animations/utils/text_render.py:118-139 | every non-space pixel of every known character is drawn at the cursor its predecessors leave plus its column |
| TextRender.TextPixelsSnoc | animations/utils/text_render.py:118-139 | each character is laid out at the start plus the sum of the advances before it |
| TextRender.AsWrites | animations/utils/text_render.py:127-134 | one set_pixel call per lit pixel |
| TextRender.DrawBigText | animations/utils/text_render.py:95-142 | the buffer gets one set_pixel per non-space pixel at (cursor + col, y + row), '█', '#' and '*' shown as char; the result is (final cursor, font height) |
| TextRender.DrawBigTextAt | animations/utils/text_render.py:118-142 | the loop over the characters does the same for an integer start |
| TextRender.DrawChar | animations/utils/text_render.py:119-139 | one character draws its glyph and moves the cursor by its advance |
| TextRender.DrawGlyph | animations/utils/text_render.py:123-134 | the row loop draws every lit pixel of a glyph |
| TextRender.DrawRow | animations/utils/text_render.py:124-134 | the column loop draws every lit pixel of a row |
| TextRender.DrawBigTextCentered | animations/utils/text_render.py:145-173 | starts at `((width - tw) // 2, (height - th) // 2 + y_offset)`, draws the text there with '█', and returns the start and the measured size |
| TextRender.FloorHalf | animations/utils/text_render.py:168-169 | `n // 2` is the floor half: h <= n - h <= h + 1, also for negative n |
| TextRender.CoveredSnoc | animations/utils/text_render.py:204-205 | one more pixel covers exactly its own cell besides the old ones |
| TextRender.GetTextMask | animations/utils/text_render.py:176-211 | the mask has text_height rows of text_width columns and a cell is True exactly where a non-space glyph pixel lands at a column < text_width |
| TextRender.MarkGlyph | animations/utils/text_render.py:202-205 | the row loop marks a glyph's pixels left of the width |
| TextRender.MarkRow | animations/utils/text_render.py:203-205 | the column loop marks a row's pixels left of the width |
| TextRender.MarkStep | animations/utils/text_render.py:204-205 | marking a pixel inside the mask covers it |
| TextRender.SkipStep | animations/utils/text_render.py:204 | a pixel at or past the width is skipped |
| FireClock.FireCharsLayout | animations/time/t_fire_clock.py:28-29 | FIRE_LEVELS == len(FIRE_CHARS) == 19: five spaces, then 14 glyphs |
| FireClock.Zeros | animations/time/t_fire_clock.py:39-40 | a fresh buffer is all zero, so in range and cold on the border |
| FireClock.FeedBottom | animations/time/t_fire_clock.py:47-49 | the bottom row takes the drawn levels; every other cell is kept |
| FireClock.IgniteEffect | animations/time/t_fire_clock.py:51-56 | a cell is FIRE_LEVELS - 1 exactly when it is one of the hot points, and kept otherwise |
| FireClock.FeedInRange | animations/time/t_fire_clock.py:47-56 | feeding keeps every level in [0, FIRE_LEVELS - 1] |
| FireClock.HotDrawOnGrid | animations/time/t_fire_clock.py:52-56 | the hot points lie in rows [3h/4, h - 1] of the grid |
| FireClock.Average | animations/time/t_fire_clock.py:62-70 | the new level is capped at FIRE_LEVELS - 1 and at most a fifth of the cross sum |
| FireClock.AverageCapInactive | animations/time/t_fire_clock.py:69-70 | on levels in range the cap never binds: the level is `(top + left + center + right + bottom) // 5`, in range |
| FireClock.SpreadRow | animations/time/t_fire_clock.py:59-73 | each new row keeps the width |
| FireClock.Spread | animations/time/t_fire_clock.py:59-73 | the new back buffer keeps the grid's shape |
| FireClock.SpreadInvariant | animations/time/t_fire_clock.py:59-73 | spreading keeps every level in range, and row h - 1 and columns 0 and w - 1 stay 0 |
| FireClock.FireDepthRange | animations/time/t_fire_clock.py:88 | on drawn levels the depth is `10 - (12 * level) // 19`, within [-1, 7] |
| FireClock.DrawnExactlyWhenHot | animations/time/t_fire_clock.py:78-90 | a cell is drawn exactly when its level is >= 5, with FIRE_CHARS[level] at the level's depth |
| FireClock.BottomPassDrawsNothing | animations/time/t_fire_clock.py:92-96 | over a cold bottom row the 'X' pass draws nothing |
| FireClock.ColdBottomRow | animations/time/t_fire_clock.py:59-96 | the back buffer's bottom row is all 0, so the `level > 5` guard never fires |
| FireClock.FireState.constructor | animations/time/t_fire_clock.py:17-22 | no buffers yet, size 0 x 0 |
| FireClock.FireState.Advance | animations/time/t_fire_clock.py:35-73 | reset to zeros on the first frame or a size change, copy back, feed, spread; the invariant is kept |
| FireClock.FireState.CopyBack | animations/time/t_fire_clock.py:42-45 | buffer0 becomes a copy of buffer1 |
| FireClock.FireState.Stoke | animations/time/t_fire_clock.py:47-56 | the front buffer becomes the fed buffer; levels stay in range |
| FireClock.FireState.SpreadUp | animations/time/t_fire_clock.py:58-73 | the nested loop leaves the spread back buffer; levels stay in range and the border cold |
| FireClock.FireState.Render | animations/time/t_fire_clock.py:32-117 | the state advances as above and the buffer is drawn from the new back buffer; returns (-18, 12) |
| FireClock.FireState.Draw | animations/time/t_fire_clock.py:75-96 | the fire pass, then a bottom pass that draws nothing |
| FireClock.DrawFire | animations/time/t_fire_clock.py:78-90 | the nested loop writes exactly the cells the level rule selects |
| FireClock.DrawFireRow | animations/time/t_fire_clock.py:79-90 | the inner loop writes one row's cells |
| FireClock.DrawBottom | animations/time/t_fire_clock.py:93-96 | the bottom pass writes 'X' at depth -3 where the level exceeds 5 |
| ClockMask.MaskAdvance | animations/time/t_life_timer.py:50-58 | the mask cursor advances by the bitmap width + 1 for a known character and by 3 for an unknown one |
| ClockMask.MaskSetSnoc | animations/time/t_life_timer.py:49-58 | each character adds its glyph's pixels at the cursor the characters before it leave |
| ClockMask.ReadablePrefix | animations/time/t_life_timer.py:49-56 | a prefix of a text whose glyphs all have a first row has the same property |
| ClockMask.RowSetMembers | animations/time/t_life_timer.py:53-55 | a row adds exactly its non-space columns |
| ClockMask.GlyphSetMembers | animations/time/t_life_timer.py:52-55 | a glyph adds exactly its non-space pixels at (x + column, y + row) |
| ClockMask.MaskMembers | animations/time/t_life_timer.py:38-58 | a position is in the mask exactly when some character's non-space pixel lands there |
| ClockMask.LitAtPrefix | animations/time/t_life_timer.py:49-58 | a character's pixels do not depend on the characters after it |
| ClockMask.LitAtLast | animations/time/t_life_timer.py:49-56 | the last character's pixels are its glyph at the cursor the others leave |
| ClockMask.MaskSound | animations/time/t_life_timer.py:49-58 | every mask position is a lit pixel of some character |
| ClockMask.MaskComplete | animations/time/t_life_timer.py:49-58 | every lit pixel of every character is in the mask |
| ClockMask.MaskInBox | animations/time/t_life_timer.py:45-58 | in a font of uniform glyphs the mask lies between the start column and the final cursor, within the font's rows |
| ClockMask.CursorGrows | animations/time/t_life_timer.py:56-58 | the cursor never moves back |
| ClockMask.BuildMask | animations/time/t_life_timer.py:48-58 | the loop builds exactly the mask set |
| ClockMask.AddGlyph | animations/time/t_life_timer.py:52-55 | the row loop adds a glyph's pixels |
| ClockMask.AddRow | animations/time/t_life_timer.py:53-55 | the column loop adds a row's pixels |
| LifeTimer.BlockMembers | animations/time/t_life_timer.py:66-68 | the 3 x 3 block around p holds exactly the positions within one step of p |
| LifeTimer.RowPartThree | animations/time/t_life_timer.py:67-68 | one row of the block holds the three positions dx = -1, 0, 1 |
| LifeTimer.CandidateMembers | animations/time/t_life_timer.py:63-68 | the candidates are exactly the positions within one step of a live cell, live cells included |
| LifeTimer.CandidateSetAdd | animations/time/t_life_timer.py:65-68 | one more live cell adds its block |
| LifeTimer.Candidates | animations/time/t_life_timer.py:63-68 | the loop builds exactly the candidate set |
| LifeTimer.LiveAreCandidates | animations/time/t_life_timer.py:64 | every live cell is a candidate |
| LifeTimer.AddBlock | animations/time/t_life_timer.py:66-68 | the dy/dx loops add the block around one cell |
| LifeTimer.OffsetsDistinct | animations/time/t_life_timer.py:72-73 | the eight neighbour offsets are distinct |
| LifeTimer.CountIsLiveNeighbours | animations/time/t_life_timer.py:72-73 | the count is the number of live neighbours other than the cell itself, at most 8 |
| LifeTimer.NeighbourIndex | animations/time/t_life_timer.py:72-73 | every neighbour is reached by one of the eight offsets |
| LifeTimer.OffsetsNear | animations/time/t_life_timer.py:72-73 | every offset is a unit step other than (0, 0) |
| LifeTimer.CountFirstIsSize | animations/time/t_life_timer.py:72-73 | counting the first n offsets counts the distinct live cells they reach |
| LifeTimer.LiveFirstMembers | animations/time/t_life_timer.py:72-73 | the live cells reached by the first n offsets |
| LifeTimer.LaterNotEarlier | animations/time/t_life_timer.py:72-73 | a later offset never reaches a cell an earlier one reached |
| LifeTimer.CountFirstAtMost | animations/time/t_life_timer.py:72-73 | n offsets count at most n |
| LifeTimer.ConwayOffMask | animations/time/t_life_timer.py:87-98 | off the mask a live cell survives iff count is 2 or 3 and a dead one is born iff count is 3, at age 0.0 |
| LifeTimer.StickyOnMask | animations/time/t_life_timer.py:81-86 | on the mask a live cell survives iff 1 <= count <= 6 and a dead one is born iff 2 <= count <= 5 or the draw is < 0.12 |
| LifeTimer.MaskIsSticky | animations/time/t_life_timer.py:81-92 | whatever lives off the mask would also live on it |
| LifeTimer.FateAgeInRange | animations/time/t_life_timer.py:94-98 | ages stay in [0, 1]: a survivor gets `min(age + 0.1, 1.0)` and a newborn 0.0 |
| LifeTimer.NextIsNearLive | animations/time/t_life_timer.py:63-103 | every cell of the next generation was within one step of a live cell |
| LifeTimer.LiveOrTrail | animations/time/t_life_timer.py:94-101 | a live cell either lives on or dies and leaves a trail, never both |
| LifeTimer.NextKeepsAges | animations/time/t_life_timer.py:94-98 | the next generation keeps every age in [0, 1] |
| LifeTimer.FadeKeepsRange | animations/time/t_life_timer.py:99-110 | fresh trails at 1.0 and the fading keep every fade in range |
| LifeTimer.Seeded | animations/time/t_life_timer.py:32 | the seeded cells are exactly the on-screen positions whose draw is < 0.08, all at age 0 |
| LifeTimer.TrailDepthRange | animations/time/t_life_timer.py:119 | a trail's depth `int(10 + (1 - fade) * 5)` lies in [10, 14] |
| LifeTimer.TrailWrites | animations/time/t_life_timer.py:116-121 | trails are drawn exactly at on-screen trail positions that hold no live cell |
| LifeTimer.CellWrites | animations/time/t_life_timer.py:124-139 | live cells are drawn exactly at their on-screen positions |
| LifeTimer.PassesDisjoint | animations/time/t_life_timer.py:116-139 | the trail pass and the cell pass never write the same cell |
| LifeTimer.TrailsBehindCells | animations/time/t_life_timer.py:119-136 | every live cell is drawn nearer than every trail |
| LifeTimer.LifeState.constructor | animations/time/t_life_timer.py:12-19 | empty cells and trails, size 0 x 0, no time, empty mask |
| LifeTimer.LifeState.Advance | animations/time/t_life_timer.py:28-110 | reseed on a size change, rebuild the mask on a new time, then one generation and the trail update |
| LifeTimer.LifeState.Resize | animations/time/t_life_timer.py:29-32 | the cells are reseeded only when the width or height changed |
| LifeTimer.LifeState.UpdateMask | animations/time/t_life_timer.py:37-58 | the mask is rebuilt at the centred origin only when the time string changed |
| LifeTimer.LifeState.StepCells | animations/time/t_life_timer.py:60-110 | cells become the next generation; trails get the newly dead at 1.0, then fade |
| LifeTimer.LifeState.Draw | animations/time/t_life_timer.py:112-139 | the trail pass, then the live-cell pass |
| LifeTimer.LifeState.Render | animations/time/t_life_timer.py:25-150 | the update, then both passes; returns (-15, 20) |
| LifeTimer.Evolve | animations/time/t_life_timer.py:70-103 | the loop over the candidates builds the next generation and marks the dead |
| LifeTimer.FadeAll | animations/time/t_life_timer.py:105-110 | fades above 0.1 lose 0.05; the rest are dropped |
| LifeTimer.NextOnAdd | animations/time/t_life_timer.py:94-98 | one more candidate adds its fate |
| LifeTimer.DiedOnAdd | animations/time/t_life_timer.py:99-101 | one more candidate that dies is marked |
| LifeTimer.FadedOnAdd | animations/time/t_life_timer.py:107-109 | one more trail fades or is dropped |
| SnowClock.Constants | animations/time/t_snow_clock.py:26-30 | MAX_SNOW_DENSITY is 4, three flake glyphs, and every density 1..4 draws a visible ground glyph |
| SnowClock.AccumulatedTrans | animations/time/t_snow_clock.py:94-107 | snow only accumulating is transitive across landings |
| SnowClock.SettleAtKeeps | animations/time/t_snow_clock.py:97-107 | one column of a landing keeps the ground on screen with densities in [1, 4] and lowers nothing |
| SnowClock.SettleFromKeeps | animations/time/t_snow_clock.py:96-107 | any number of dx iterations keep the ground well formed and only add snow |
| SnowClock.SettleStepKeeps | animations/time/t_snow_clock.py:96-107 | one more dx iteration after an accumulating prefix still accumulates |
| SnowClock.SettleAtElsewhere | animations/time/t_snow_clock.py:99-107 | a dx iteration touches no other column on the landing row |
| SnowClock.SettleRaisesLanding | animations/time/t_snow_clock.py:96-102 | a landing raises the density where the flake landed by one, capped at 4 |
| SnowClock.SettleSnow | animations/time/t_snow_clock.py:96-107 | the dx loop computes the landing's new ground |
| SnowClock.FlakeStepKeeps | animations/time/t_snow_clock.py:69-107 | a flake step keeps the flake on screen with counter in its period, its speed unchanged, and the ground well formed and only growing |
| SnowClock.FlakePace | animations/time/t_snow_clock.py:70-90 | below spd + 2 only the counter advances; at spd + 2 the counter resets and the flake drops a row or respawns on the top row at the drawn column |
| SnowClock.UpdateN | animations/time/t_snow_clock.py:69-107 | updating n flakes yields n flakes |
| SnowClock.UpdateKeeps | animations/time/t_snow_clock.py:69-107 | the update pass keeps every flake and the ground well formed and only adds snow |
| SnowClock.UpdateFlakes | animations/time/t_snow_clock.py:69-107 | the loop over the flakes computes the update pass |
| SnowClock.MoveFlake | animations/time/t_snow_clock.py:70-107 | the loop body moves one flake as the flake step says |
| SnowClock.Spawned | animations/time/t_snow_clock.py:17-60 | one flake per draw, at the drawn position and speed, counter 0 |
| SnowClock.BottomRow | animations/time/t_snow_clock.py:63-64 | the first n columns of the bottom row |
| SnowClock.BaseGround | animations/time/t_snow_clock.py:62-64 | the initial ground is density 1 exactly across the bottom row |
| SnowClock.Reset | animations/time/t_snow_clock.py:51-64 | the reset builds the drawn flakes and the bottom-row ground |
| SnowClock.FlakeWrites | animations/time/t_snow_clock.py:110-115 | every flake (all on screen) is drawn once, in order, with its speed's glyph at depth 5 - spd |
| SnowClock.GroundWrites | animations/time/t_snow_clock.py:118-121 | ground is drawn exactly at on-screen positions of positive density |
| SnowClock.GroundDrawn | animations/time/t_snow_clock.py:113-121 | every ground position is drawn with its density's glyph, which is not a space, and behind every flake |
| SnowClock.DrawFlakes | animations/time/t_snow_clock.py:110-115 | the flake loop plots the flake pass onto the buffer |
| SnowClock.SnowState.constructor | animations/time/t_snow_clock.py:34-38 | no flakes, no ground, size 0 x 0 |
| SnowClock.SnowState.Advance | animations/time/t_snow_clock.py:47-107 | reset on a size change, then the update pass; the ground only gains snow |
| SnowClock.SnowState.Render | animations/time/t_snow_clock.py:44-138 | the update, then the flake pass and the ground pass; returns (-15, 15) |
| Typist.DropLast | animations/time/t_typist.py:65 | `s[:-1]`: the last character removed, and the empty string unchanged |
| Typist.ContainsIff | animations/time/t_typist.py:74 | `hms in current` holds exactly when hms occurs at some index of current |
| Typist.Retarget | animations/time/t_typist.py:37-43 | the target is recorded and the text, blink and step time kept |
| Typist.StepKeepsGood | animations/time/t_typist.py:37-75 | the mode stays typing, waiting or backspacing and the cursor stays at the end of the text |
| Typist.StepPacing | animations/time/t_typist.py:46-52 | within 1/15 s of the last step the text and blink stay; past it the blink toggles and the step time is recorded |
| Typist.RetargetWhileWaiting | animations/time/t_typist.py:38-41 | a new target while waiting starts backspacing from the end of the text |
| Typist.TypingTypesPrefix | animations/time/t_typist.py:54-57 | a typing step makes the text the target's prefix one character longer |
| Typist.BackspacingStep | animations/time/t_typist.py:62-68 | backspacing removes the last character while the text is longer than the target less two, then typing resumes |
| Typist.WaitingEnds | animations/time/t_typist.py:70-75 | after the wait, waiting turns to backspacing exactly when the time no longer occurs in the text |
| Typist.TypingConverges | animations/time/t_typist.py:54-57 | from typing mode, `len(target)` minus `cursor` steps type the whole target |
| Typist.TypistState.constructor | animations/time/t_typist.py:12-21 | nothing typed, typing mode, blink on, no lines, 8 lines at most |
| Typist.TypistState.Render | animations/time/t_typist.py:27-75 | the retarget then one paced step, keeping the state well formed; returns (-5, 5) |
| Typist.TypistState.UpdateTarget | animations/time/t_typist.py:37-43 | the fields become the retargeted state |
| Typist.TypistState.Advance | animations/time/t_typist.py:49-75 | the fields become one step of the state machine |
| MatrixClock.Utf8Three | animations/time/t_matrix_clock.py:83 | a code point from U+0800 to U+FFFF encodes as three bytes, each from 0x80 to 0xFF |
| MatrixClock.Cp1252Decode | animations/time/t_matrix_clock.py:83 | reading bytes as Windows-1252 gives one character per byte |
| MatrixClock.MaskGlyphMisDecoded | animations/time/t_matrix_clock.py:83 | the literal drawn for masked pixels is the UTF-8 bytes E2 96 88 of U+2588 read as Windows-1252: three characters, none of them the block |
| MatrixClock.MaskGlyphIsFullBlock | animations/time/t_matrix_clock.py:83 | the corrected glyph is the one character U+2588 FULL BLOCK |
| MatrixClock.AsWrittenRowOverflows | animations/time/t_matrix_clock.py:83 | as written, a rendered row holding a masked pixel shows at least two characters more than it has cells, once its colour codes are stripped |
| MatrixClock.CorrectedRowFits | animations/time/t_matrix_clock.py:83 | with one-character glyphs such as the block, a rendered row shows exactly one character per cell |
| MatrixClock.NewLines | animations/time/t_matrix_clock.py:15-44 | one new line per draw: starting `drop` rows above the screen, counter 0, within the ranges of the draws |
| MatrixClock.NewLineOk | animations/time/t_matrix_clock.py:17-22 | a new line is in the resting ranges |
| MatrixClock.LineStepKeeps | animations/time/t_matrix_clock.py:58-71 | a line step keeps speed, counter, length, head height and head character in range |
| MatrixClock.LinePace | animations/time/t_matrix_clock.py:58-71 | below spd only the counter advances; at spd the counter resets, the head takes the drawn character, and the line drops a row or, once its whole tail is below the screen, restarts `drop` rows above it |
| MatrixClock.StepAll | animations/time/t_matrix_clock.py:57-71 | every line takes its own step with its own draws |
| MatrixClock.StepAllOk | animations/time/t_matrix_clock.py:57-71 | the update keeps every line in range |
| MatrixClock.TailDepthMonotone | animations/time/t_matrix_clock.py:90-99 | the tail's depth (5, 8, 11) never decreases with the distance from the head |
| MatrixClock.LineWritesInColumn | animations/time/t_matrix_clock.py:74-78 | a line draws at most length pixels, all in its own column and on rows of the screen |
| MatrixClock.MaskedPixel | animations/time/t_matrix_clock.py:81-102 | a masked pixel is the block in the accent colour at depth -10; any other pixel is at depth 2 or more |
| MatrixClock.UpdateLine | animations/time/t_matrix_clock.py:58-71 | the loop body updates one line as the line step says |
| MatrixClock.PixelStyle | animations/time/t_matrix_clock.py:81-102 | the branches of the draw body pick the write that the line's pixel rule gives: the block for a masked pixel, the head in the accent colour, or the tail glyph at its depth |
| MatrixClock.DrawLine | animations/time/t_matrix_clock.py:74-102 | the offset loop plots the line's writes onto the buffer |
| MatrixClock.StepAndDraw | animations/time/t_matrix_clock.py:57-102 | the column loop updates every line and plots every line's writes, column by column, keeping the lines in range |
| MatrixClock.MatrixState.constructor | animations/time/t_matrix_clock.py:26-31 | no lines, size 0 x 0, empty mask, last second -1 |
| MatrixClock.MatrixState.Render | animations/time/t_matrix_clock.py:37-110 | new lines on a size change, the mask rebuilt on a new second, then the line pass; returns (-15, 12) |

## Left out

- Terminal I/O and the frame loop: `run_animation`, `check_key`, `get_terminal_size` and `_handle_key` in `engine.py`, the print helpers of `colors.py`, and `main.py`. These are keyboard polling, sleeping and stdout.
- The rotation, SDF and vector helpers of `engine.py`. They are floating-point trigonometry and square roots. Projection takes the rotated point as input.
- The geometric animations, the screensavers, the physics-driven clock apps and the registries. They only consume `set_pixel`, `project_point` and `run_shader_animation`.
- IEEE floating point. Reals are exact, so rounding near a threshold (`0.15`, `0.3`, `0.4`, `0.7`) can differ from the program.
- numpy dtypes, broadcasting and overflow. Arrays are nested sequences, whole-array operations are pointwise functions, and `astype(int)` is truncation.
- `random` and `datetime.now()`. Draws, the frame time and the time string are parameters.
- The fonts module (`FONT_DIGITAL`, `FONT_OUTLINE`, `draw_text`, `get_text_width`, `get_char_height`) is not part of this model.
  - The clock apps take the font and the text width or height as parameters.
  - The `draw_text` time overlays of the fire, life, snow and matrix clocks are not modelled.
  - The fire clock's glow layers, and the `sin`-driven wobble of the overlay position, are not modelled either.
- The typist's drawing (the frame, the header, the typed line, the cursor and the scan line, `t_typist.py:77-154`) is not modelled. `lines` and `maxLines` are kept only as fields.
- Dictionary iteration order when drawing the life and snow clocks. Each write lands at its own key, so the painted grid does not depend on the order, and the model paints as a set.
- Shader.ShaderRenderer.Render, Shader.ShaderRenderer.RenderBlocks, Shader.ShaderRenderer.RenderBraille and Shader.ShaderRenderer.WriteToBuffer require every active cell to lie inside the buffer. The source would raise IndexError on a buffer smaller than the renderer.
- Shader.ShaderRenderer.constructor requires a positive height. The source divides by it to get the aspect ratio.
- TextRender.GetTextMask requires the glyphs' lit pixels to lie within the text height. The source would raise IndexError on a font whose glyphs are taller than its `'0'`.
- ClockMask.BuildMask requires every known character's glyph to have a first row. The source reads `bitmap[0]` and would raise IndexError on an empty glyph. The same requirement carries over to LifeTimer.LifeState.UpdateMask, LifeTimer.LifeState.Advance, LifeTimer.LifeState.Render and MatrixClock.MatrixState.Render.
- FireClock.FireState.Advance, FireClock.FireState.Stoke and FireClock.FireState.Render require a positive height whenever the width is positive. With height 0 the source raises IndexError at `t_fire_clock.py:49`, where it writes `buffer0[height - 1]` into an empty list.
- SnowClock.Reset, SnowClock.SnowState.Advance and SnowClock.SnowState.Render require a positive width and height whenever the flakes are re-created. Otherwise the source's `random.randint(0, width - 1)` or `randint(0, height - 1)` at `t_snow_clock.py:57-58` raises ValueError.
- Colors.Lower lowers ASCII letters only, where Python's `str.lower` also lowers non-ASCII capitals (`É` to `é`, KELVIN SIGN to `k`). This cannot change which theme `set_theme` picks: every theme key is ASCII lower-case and none contains `k`, so no non-ASCII character lowers into a key.
- Typist.TypistState.Advance treats a negative cursor as being past the end of the target, where Python would slice from the end. No state reachable from the constructor has a negative cursor (Typist.StepKeepsGood).

## Findings

| source | as written | input that shows it | evidently intended | confidence | as-written member | corrected member |
|---|---|---|---|---|---|---|
| animations/time/t_matrix_clock.py:83 | masked pixels are drawn with the three-character literal `â–ˆ`, the UTF-8 bytes of U+2588 read back as Windows-1252, so a row crossing the mask renders at least two characters wider than the screen (MatrixClock.AsWrittenRowOverflows) | any line crossing a pixel of the time mask | the one-character full block `█` (U+2588) | high, not executed | MatrixClock.MaskGlyphMisDecoded | MatrixClock.MaskGlyphIsFullBlock |
