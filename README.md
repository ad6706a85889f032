# infinity-plugin display core, in Dafny

This project models the software rasteriser and palette code of
`src/display.c` of the Infinity visualisation plug-in. That code:

- builds five 256-colour palettes (`generate_colors`);
- blends two of them into the 16-bit RGB565 table `current_colors` (`change_color`);
- raises cells of the byte index surface `surface1` with the saturating plots
  `plot1` and `plot2` (`assign_max` inside a guard box);
- draws integer lines with an error accumulator (`line`);
- turns the audio snapshot into line segments (`spectral`, modes 0 to 2);
- plots the 128 points of `curve` and advances its cursor `x_curve`;
- takes a new audio snapshot (`display_set_pcm_data`);
- copies the index surface through `current_colors` onto the SDL screen at
  scale 1 or 2 (`display_surface`).

The file's static state (`width`, `height`, `scale`, `surface1`,
`color_table`, `current_colors`, `pcm_data`) is the class `Display.Session`,
and its routines are methods that update that state in place. Each method
that draws or fills a table is proved equal to a pure definition, and the
properties the code promises are proved as lemmas about those definitions.
The definitions live in four modules; `Display.CurvePoints`, the points
`curve` plots, sits beside the class. `display_set_pcm_data` is stated
directly on the snapshot field:

- `Palette`: palette ramps and the RGB565 blend;
- `Raster`: `plot1`, `plot2` and the points `line` visits;
- `Spectrum`: the segment list of `spectral`;
- `Screen`: the picture `display_surface` leaves on the screen.

The screen is an `array2<u16>` of rows of `pitch` pixels. Pixel `j` of row
`i` is the source's `screen->pixels + i * screen->pitch`, advanced by `j`
16-bit pixels, so `pitch` here counts pixels, not bytes. The `memcpy` of a
scale-2 row is a whole-row copy (`Display.CopyRow`).

Numeric conventions:

- `>>` on a signed `gint32` is an arithmetic shift, so it is floor division
  (Dafny's `/` on a positive divisor).
- `(byte)c` is `c % 256`.
- A value stored in a `gint16` slot is kept as its 16-bit pattern (`u16`).
- The `generate_colors` anchors are multiples of 0.5. They are held doubled,
  as integers; `Palette.RampIsTruncation` proves the integer ramp equals
  the truncation of the floating-point product the source computes.

## Model

| member | source | states |
|---|---|---|
| Palette.RampChannel | src/display.c:84-90 | every channel generate_colors computes lies in 0..254, so the `(Uint8)` cast never wraps |
| Palette.Anchor2 | src/display.c:77-81 | definition: the anchor table colors[k][h][ch] of generate_colors, each entry doubled to an integer |
| Palette.PaletteEntry | src/display.c:83-91 | definition: entry i of palette k as the loops leave it in color_table[k][i], one RampChannel per channel |
| Palette.AnchorsBounded | src/display.c:77-81 | for every palette and channel the anchors satisfy a0 <= 2 and a0 + a1 <= 2 (doubled: 4), the bound behind the ramp's range |
| Palette.RampIsTruncation | src/display.c:85-90 | the integer channel equals trunc(a0 * i) for i < 128 and trunc(a0 * 127 + a1 * (i - 128)) above, computed over the reals |
| Palette.RampMonotone | src/display.c:84-91 | every palette channel is non-decreasing in the entry index, across the seam between the halves too |
| Palette.RampSeam | src/display.c:85-90 | entry 128 equals entry 127 in every channel: the high half starts where the low half ends |
| Palette.Pack565RoundTrip | src/display.c:294 | packing r < 32, g < 64, b < 32 as (r << 11) + (g << 5) + b gives a 16-bit value from which each field reads back unchanged |
| Palette.Rgb565 | src/display.c:291-294 | the RGB565 reduction of an entry holds r / 8, g / 4 and b / 8 in its three fields |
| Palette.Mix | src/display.c:291-293 | definition: one channel of change_color, (a * w + b * (256 - w)) >> 11 or >> 10, the shift as floor division |
| Palette.BlendRed | src/display.c:291 | definition: the red field r of change_color, from palette t1 weighted w and palette t2 weighted 256 - w |
| Palette.BlendGreen | src/display.c:292 | definition: the green field g of change_color |
| Palette.BlendBlue | src/display.c:293 | definition: the blue field b of change_color |
| Palette.Blend | src/display.c:291-294 | definition: the value stored in current_colors[i], (r << 11) + (g << 5) + b kept as the 16-bit pattern of the gint16 slot |
| Palette.MixBetween | src/display.c:291-293 | a weighted channel (weights w and 256 - w, 0 <= w <= 256) shifted by 11 or 10 lies between the two mixed channels reduced by 8 or 4 |
| Palette.BlendIsRgb565 | src/display.c:291-294 | for 0 <= w <= 256 red and blue fit in 5 bits and green in 6, the gint16 slot keeps the packed value, and each field lies between the fields of the two blended entries |
| Palette.StoredUnchanged | src/display.c:49 | a packed value whose fields fit their widths is stored in the 16-bit slot unchanged, fields intact |
| Palette.BlendAtFullWeight | src/display.c:291-294 | at w = 256 the stored entry is exactly the RGB565 reduction of palette t1's entry |
| Palette.BlendAtZeroWeight | src/display.c:291-294 | at w = 0 the stored entry is exactly the RGB565 reduction of palette t2's entry |
| Palette.Avg | src/display.c:291-293 | definition: the weighted average (a * w + b * (256 - w)) / 256 of two channels, the reference the blend is compared with |
| Palette.MixIsReducedAvg | src/display.c:291-293 | for 0 <= w <= 256 the average is a byte and the shifted channel equals the average reduced by 8 (red, blue) or 4 (green) |
| Palette.BlendIsRgb565OfAverage | src/display.c:291-294 | for every weight 0 <= w <= 256 the stored entry is exactly the RGB565 reduction of the weighted average of the two palette entries |
| Raster.Plot1Of | src/display.c:149-152 | plot1 lowers no cell, changes only cell x + y * width and only inside the guard box, and leaves max(old, c) there |
| Raster.Plot2Of | src/display.c:154-165 | plot2 keeps the surface's width * height cells; its cell-by-cell effect is Raster.Plot2Effect |
| Raster.Plot2Effect | src/display.c:154-165 | inside the guard box each of the four cells of the 2x2 block becomes max(old, c) and every other cell keeps its value; outside the box nothing changes |
| Raster.PlotTwiceIsMax | src/display.c:26 | plotting c1 then c2 at one point leaves max(old, c1, c2), and the order of the two plots does not matter |
| Raster.AssignMax | src/display.c:26 | definition: assign_max on one cell, which becomes c when the old value is <= c and keeps its value otherwise |
| Raster.PlotAll | src/display.c:149-152 | a run of plot1 calls keeps the surface's shape |
| Raster.Plot2All | src/display.c:154-165 | a run of plot2 calls keeps the surface's shape |
| Raster.PlotAllEffect | src/display.c:149-152 | a run of plot1 calls lowers no cell, and every changed cell holds c and belongs to a plotted point inside the guard box |
| Raster.LinePoints | src/display.c:177-216 | the points line hands to plot1, in order: max(abs(dx), abs(dy)) of them, the dominant coordinate stepping by one from the nearer endpoint and the minor one moved by floor((k + 1) * d / D) towards the far endpoint |
| Raster.SteepPoint | src/display.c:180-197 | on a line following the y axis, point k is (xa + s * floor((k + 1) * dx / dy), ya + k) |
| Raster.ShallowPoint | src/display.c:199-216 | on a line following the x axis, point k is (xa + k, ya + s * floor((k + 1) * dy / dx)) |
| Raster.LineOf | src/display.c:172-218 | drawing a line keeps the surface's shape |
| Raster.AccumulatorStep | src/display.c:189-193 | adding d to the remainder k * d mod D and subtracting D on reaching it gives the remainder and quotient for k + 1 |
| Raster.CarryStep | src/display.c:189-193 | the accumulator update of line maps (k * d mod D, k * d div D) to the same pair for k + 1 |
| Raster.LineCoversDominantAxis | src/display.c:177-217 | line makes max(abs(dx), abs(dy)) plot1 calls, one per dominant coordinate from the smaller endpoint (inclusive) to the larger (exclusive); coincident endpoints plot nothing |
| Raster.LineSymmetric | src/display.c:181-184 | swapping the endpoints gives the same points in the same order |
| Raster.LineOfSymmetric | src/display.c:200-203 | swapping the endpoints leaves the same surface |
| Raster.MinorStep | src/display.c:189-193 | from one point to the next the minor coordinate's quotient grows by 0 or 1 |
| Raster.FullRun | src/display.c:186-197 | D * d / D == d: at the last of D points the minor coordinate has moved exactly d |
| Raster.LineMinorAxisSteep | src/display.c:185-197 | on a y-following line x moves at most one unit per point, always towards the far endpoint, and the last point has the far endpoint's x |
| Raster.LineMinorAxisShallow | src/display.c:199-216 | on an x-following line y moves at most one unit per point, always towards the far endpoint, and the last point has the far endpoint's y |
| Spectrum.Shift | src/display.c:321 | definition: shift = (spectral_shift * height) >> 8 |
| Spectrum.SampleIndex | src/display.c:362 | definition: the sample index (i << 9) / width / density_lines read at column i |
| Spectrum.Scaled | src/display.c:362-365 | definition: the trace height ((v >> 8) * amplitude * height) >> 12 of a sample v |
| Spectrum.Baseline | src/display.c:325-326 | definition: the starting height (((pcm_data[0][0] + pcm_data[1][0]) >> 9) * amplitude * height) >> 12 of both traces |
| Spectrum.TraceY | src/display.c:325-326 | definition: the height of trace y1 (channel 1) or y2 (channel 0) after n strides: the baseline for n = 0, the scaled sample at column 4n otherwise |
| Spectrum.NumStrides | src/display.c:359 | definition: the number of turns of the loop i = 4, 8, ... while i < width |
| Spectrum.Traces | src/display.c:359-394 | definition: every segment the first n strides hand to line, in drawing order |
| Spectrum.SampleIndexInWindow | src/display.c:362-365 | for every stride column 4 <= i < width the sample index (i << 9) / width / 5 lies in 0..102, so the pcm_data reads stay inside the 512 samples |
| Spectrum.StridesCoverWidth | src/display.c:359 | the stride columns are 4, 8, ... up to the last multiple of 4 below width |
| Spectrum.StrideSegments | src/display.c:367-394 | one stride emits one line in mode 0, two in mode 1, four in mode 2 and none in other modes |
| Spectrum.TracesStep | src/display.c:359-394 | each stride appends its own segments after those of the earlier strides |
| Spectrum.DrawTracesStep | src/display.c:359-394 | drawing n + 1 strides is drawing n strides and then the segments of the last one |
| Spectrum.TracesCount | src/display.c:359-394 | n strides emit n, 2n or 4n lines by mode |
| Spectrum.SilentSample | src/display.c:325-326 | with an all-zero snapshot every trace height is 0 |
| Spectrum.SilentTraceIsFlat | src/display.c:321-372 | with an all-zero snapshot in mode 0 segment k is horizontal at y = height / 2 + shift and runs from x = 4k to x = 4k + 4 |
| Spectrum.HorizontalLine | src/display.c:199-216 | a horizontal segment plots its points from its left end inclusive to its right end exclusive |
| Spectrum.DrawAll | src/display.c:367-394 | drawing a list of segments keeps the surface's shape |
| Spectrum.Draw | src/display.c:172-218 | drawing one segment keeps the surface's shape |
| Spectrum.DrawAllOne | src/display.c:368-372 | drawing one segment is one line call |
| Spectrum.DrawAllTwo | src/display.c:373-380 | drawing two segments is two line calls, in order |
| Spectrum.DrawAllFour | src/display.c:381-394 | drawing four segments is four line calls, in order |
| Spectrum.DrawAllAppend | src/display.c:359-394 | drawing a + b is drawing a and then b |
| Screen.Blit | src/display.c:111-141 | the picture display_surface leaves has the screen's rows of pitch pixels |
| Screen.Pixel | src/display.c:111-141 | definition: pixel (r, c) after display_surface at scale 1, at scale 2 (drawn columns c < 2 * (width - 1), odd rows copying the even row above) and above scale 2 (unchanged) |
| Screen.BlitAboveScale2 | src/display.c:111-134 | above scale 2 no pixel is written |
| Screen.SingleCell | src/display.c:135-141 | at scale 1 pixel (i, j) for i < height and j < width is current_colors[surface1[i * width + j]] |
| Screen.DoubledBlock | src/display.c:115-120 | at scale 2 cell (j, i) with j < width - 1 fills the 2x2 pixel block at (2j, 2i) |
| Screen.DoubledRowRepeats | src/display.c:121-122 | at scale 2 row 2i + 1 is a copy of row 2i, all pitch pixels of it |
| Screen.DoubledLastColumn | src/display.c:115-122 | at scale 2 the columns from 2 * (width - 1) on are not drawn: row 2i keeps its old pixels there and row 2i + 1 receives those old pixels of row 2i |
| Screen.BlitBelow | src/display.c:111-141 | rows below the drawn area (from height, or 2 * height at scale 2) are unchanged |
| Screen.DoubledIsMagnified | src/display.c:111-141 | wherever scale 2 draws, its pixel (r, c) is pixel (r / 2, c / 2) of the scale-1 picture of the same surface |
| Display.CurvePoints | src/display.c:436-448 | the 128 plot2 anchors of curve: pass j visits k = x_curve .. x_curve + 63 in both passes |
| Display.Session.constructor | src/display.c:38-51 | the zero-initialised statics for a w x h surface at scale s |
| Display.Effect.constructor | src/display.c:314-449 | a t_effect record holding the fields spectral and curve read (spectral_shift, spectral_amplitude, spectral_color, mode_spectre, curve_color) and the cursor x_curve, each set to the given value |
| Display.Session.GenerateColors | src/display.c:74-93 | after the loops color_table[k][i] is PaletteEntry(k, i) for every palette k and entry i |
| Display.Session.ChangeColor | src/display.c:285-296 | entries 0..254 of current_colors become Blend(color_table[t1][i], color_table[t2][i], w); entry 255 keeps its value; only current_colors changes |
| Display.Session.DisplaySurface | src/display.c:95-147 | the screen becomes Blit of its old contents, current_colors and surface1 at the session's scale |
| Display.Session.DisplaySingle | src/display.c:135-141 | the scale-1 loops leave exactly Blit on the screen |
| Display.Session.SingleRow | src/display.c:138-140 | one scale-1 row: row i becomes Blit's row i, every other row is unchanged, and psrc advances by width |
| Display.Session.DisplayDoubled | src/display.c:111-122 | the scale-2 loops leave exactly Blit on the screen |
| Display.Session.DoubleRow | src/display.c:113-122 | one scale-2 row: rows 2i and 2i + 1 become Blit's rows, every other row is unchanged |
| Display.CopyRow | src/display.c:121-122 | memcpy of one row: row dst becomes the old row src, all other rows unchanged |
| Display.Session.Plot1 | src/display.c:149-152 | the surface becomes Plot1Of of the old surface |
| Display.Session.Plot2 | src/display.c:154-165 | the surface becomes Plot2Of of the old surface |
| Display.Session.AssignMaxAt | src/display.c:26 | cell n becomes max(old, c), nothing else changes |
| Display.Session.Line | src/display.c:172-218 | the surface becomes LineOf: plot1 of every point of LinePoints, in order |
| Display.Session.FollowY | src/display.c:180-197 | the y-following loop plots exactly the points of LinePoints, in order; its loop invariant keeps cxy = k * dx mod dy and x moved by k * dx div dy after k steps |
| Display.Session.SteepStep | src/display.c:189-196 | one y-following step advances the accumulator and quotient from k to k + 1 and plots point k |
| Display.Session.FollowX | src/display.c:199-216 | the x-following loop plots exactly the points of LinePoints, in order; its loop invariant keeps cxy = k * dy mod dx and y moved by k * dy div dx after k steps |
| Display.Session.ShallowStep | src/display.c:208-215 | one x-following step advances the accumulator and quotient from k to k + 1 and plots point k |
| Display.Session.Spectral | src/display.c:314-394 | modes other than 3 and 4: the surface becomes DrawAll of Traces, the segments of every stride in order |
| Display.Session.SpectralStride | src/display.c:359-394 | one stride returns the new trace heights and draws that stride's segments |
| Display.Session.DrawStride | src/display.c:367-394 | the switch draws the stride's segments in order with the spectral colour |
| Display.Session.Curve | src/display.c:428-449 | the surface becomes plot2 of the 128 CurvePoints in order, and x_curve advances by exactly 64 |
| Display.Session.SetPcmData | src/display.c:271-283 | with two channels the snapshot becomes the new data; with any other count it is left untouched |

## Left out

- SDL setup, video mode, surface lock and unlock, flip, fullscreen toggle and
  BMP screenshot (`sdl_init`, `display_toggle_fullscreen`,
  `display_save_screen`, src/display.c:56-72, 102-110, 143-146, 451-467).
  These are foreign library calls. The screen is a parameter of
  `DisplaySurface`.
- `display_init`, `display_quit` and `display_resize` (src/display.c:220-269).
  They only sequence calls into code that is not part of this model
  (`compute_*`, `effects_*`, SDL). `display_blur`, `display_save_effect` and
  `display_load_random_effect` call that code too.
- The mutex around `pcm_data` and the hand-over between the audio and render
  threads. This is concurrency.
- Display.Session.SetPcmData: the `memcpy` of a `float*` buffer into `gint16`
  storage reinterprets bytes. The model takes the data already as 1024
  16-bit samples, and models the channel guard and the update.
- Display.Session.Spectral: modes 3 and 4 are excluded by its precondition.
  Those modes draw through the `cosw`/`sinw` caches with floating-point
  coordinates (src/display.c:327-350, 395-421).
- Display.Session.Curve: its coordinates come from floating-point
  trigonometry, so they are the caller-supplied function `pos(j, k)`. The
  model does not cover plot2's guard on a float that is truncated
  afterwards, where 0 < x < 1 passes the guard and then plots at x = 0.
- Display.CurvePoints: the anchors are `pos(j, k)`; the trigonometric formulas
  of src/display.c:440-444 are not modelled.
- The float values spectral passes to `line` hold integers and are
  converted exactly. Precision loss above 2^24 is not modelled.
- 32-bit overflow of `gint32` products (for instance `spectral_shift *
  height` or `(i << 9)`) is not modelled. Integers here are unbounded.
- Palette.Blend: for a weight outside 0..256 a field can be negative. The
  source's `r << 11` is then undefined in C; the model takes the
  mathematical product and its 16-bit pattern.
- Screen.Blit: the commented-out scale-3 code (src/display.c:123-133) is
  not code; above scale 2 the row loop has an empty body.
- Screen.Fits: the screen's size is a precondition (at least height or
  2 * height rows and width or 2 * width pixels per row). SDL's mode setup
  guarantees this in the source.
- Spectrum.TraceY: its branch for a sample index outside the channel returns
  0. `Spectrum.SampleIndexInWindow` proves that branch is never taken.
- src/ui_qt.cc, src/ui.cc and src/ui.h are not part of this model: they are
  a Qt widget, a backend switch and declarations.

Two facts the proofs make visible:

- The shift counts 11, 10 and 11 of `change_color` give the ordinary RGB565
  reduction of the weighted average of the two palette entries, for every
  weight 0 <= w <= 256, because the two weights add up to 256
  (`Palette.BlendIsRgb565OfAverage`).
- At scale 2 the loop runs j = 1 .. width - 1, so it draws only width - 1
  surface columns, and screen columns from 2 * (width - 1) on are not
  drawn. In row 2i those pixels keep their old values. Row 2i + 1 is then
  overwritten by the copy of the whole row 2i, so there those pixels receive
  row 2i's old pixels rather than keeping their own
  (`Screen.DoubledLastColumn`). The model follows the code as written.
