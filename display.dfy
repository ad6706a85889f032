/** The render session of src/display.c: the global state the file keeps
    (width, height, scale, the index surface surface1, color_table,
    current_colors and the pcm_data snapshot) as one object, and the routines
    that update it in place. Each method is proved equal to the pure
    definitions of the Palette, Raster and Spectrum modules. */
module Display {
  import opened Palette
  import opened Raster
  import opened Spectrum
  import opened Screen

  /** A t_effect record: the fields spectral and curve read, and the curve's
      cursor x_curve, which curve writes back. */
  class Effect {
    var spectralShift: int
    var spectralAmplitude: int
    var spectralColor: int
    var modeSpectre: int
    var curveColor: int
    var xCurve: int

    constructor (spectralShift: int, spectralAmplitude: int, spectralColor: int,
                 modeSpectre: int, curveColor: int, xCurve: int)
      ensures this.spectralShift == spectralShift && this.spectralAmplitude == spectralAmplitude
      ensures this.spectralColor == spectralColor && this.modeSpectre == modeSpectre
      ensures this.curveColor == curveColor && this.xCurve == xCurve
    {
      this.spectralShift := spectralShift;
      this.spectralAmplitude := spectralAmplitude;
      this.spectralColor := spectralColor;
      this.modeSpectre := modeSpectre;
      this.curveColor := curveColor;
      this.xCurve := xCurve;
    }
  }

  /** The 128 plot2 anchors of one curve call starting at cursor x0: pass j
      (0 or 1) visits k = x0 .. x0 + 63, and pos(j, k) stands for the
      trigonometric coordinates the source computes for that j and k. */
  function CurvePoints(pos: (int, int) -> Point, x0: int): (ps: seq<Point>)
    ensures |ps| == 128
    ensures forall n :: 0 <= n < 64 ==> ps[n] == pos(0, x0 + n)
    ensures forall n :: 64 <= n < 128 ==> ps[n] == pos(1, x0 + n - 64)
  {
    seq(128, n => pos(n / 64, x0 + n % 64))
  }

  class Session {
    var width: int
    var height: int
    var scale: int
    /** surface1: the byte index surface, width * height cells, row-major. */
    var surface: array<byte>
    /** color_table[NB_PALETTES][256]. */
    var colorTable: array2<Rgb>
    /** current_colors[256]: the palette in the screen's 16-bit pixel format. */
    var currentColors: array<u16>
    /** pcm_data[2][512], flat: pcm_data[ch][n] is pcm[ch * 512 + n]. */
    var pcm: seq<i16>

    ghost predicate Valid()
      reads this
    {
      0 <= width && 0 <= height && surface.Length == width * height &&
      colorTable.Length0 == NbPalettes && colorTable.Length1 == PaletteSize &&
      currentColors.Length == PaletteSize && |pcm| == 2 * Window
    }

    /** The zero-initialised state of the file's statics, sized for a w x h
        surface at scale s. */
    constructor (w: nat, h: nat, s: int)
      ensures Valid() && width == w && height == h && scale == s
      ensures fresh(surface) && fresh(colorTable) && fresh(currentColors)
      ensures forall n :: 0 <= n < surface.Length ==> surface[n] == 0
      ensures forall n :: 0 <= n < currentColors.Length ==> currentColors[n] == 0
      ensures forall n :: 0 <= n < |pcm| ==> pcm[n] == 0
    {
      width, height, scale := w, h, s;
      surface := new byte[w * h](_ => 0);
      colorTable := new Rgb[NbPalettes, PaletteSize]((_, _) => Rgb(0, 0, 0));
      currentColors := new u16[PaletteSize](_ => 0);
      pcm := seq(2 * Window, _ => 0);
    }

    /** generate_colors: fills every palette with its two-anchor ramp. */
    method GenerateColors()
      requires Valid()
      modifies colorTable
      ensures forall k, i :: 0 <= k < NbPalettes && 0 <= i < PaletteSize ==>
        colorTable[k, i] == PaletteEntry(k, i)
    {
      var k := 0;
      while k < NbPalettes
        invariant 0 <= k <= NbPalettes
        invariant forall k', i :: 0 <= k' < k && 0 <= i < PaletteSize ==>
          colorTable[k', i] == PaletteEntry(k', i)
      {
        var r0, g0, b0 := Anchor2(k, 0, 0), Anchor2(k, 0, 1), Anchor2(k, 0, 2);
        var r1, g1, b1 := Anchor2(k, 1, 0), Anchor2(k, 1, 1), Anchor2(k, 1, 2);
        var i := 0;
        while i < HalfSize
          invariant 0 <= i <= HalfSize
          invariant forall k', i' :: 0 <= k' < k && 0 <= i' < PaletteSize ==>
            colorTable[k', i'] == PaletteEntry(k', i')
          invariant forall i' :: 0 <= i' < i ==> colorTable[k, i'] == PaletteEntry(k, i')
          invariant forall i' :: HalfSize <= i' < HalfSize + i ==> colorTable[k, i'] == PaletteEntry(k, i')
        {
          assert r0 * i / 2 == RampChannel(k, i, 0) && g0 * i / 2 == RampChannel(k, i, 1)
              && b0 * i / 2 == RampChannel(k, i, 2);
          colorTable[k, i] := Rgb(r0 * i / 2, g0 * i / 2, b0 * i / 2);
          assert (r0 * 127 + r1 * i) / 2 == RampChannel(k, i + HalfSize, 0)
              && (g0 * 127 + g1 * i) / 2 == RampChannel(k, i + HalfSize, 1)
              && (b0 * 127 + b1 * i) / 2 == RampChannel(k, i + HalfSize, 2);
          colorTable[k, i + HalfSize] :=
            Rgb((r0 * 127 + r1 * i) / 2, (g0 * 127 + g1 * i) / 2, (b0 * 127 + b1 * i) / 2);
          i := i + 1;
        }
        k := k + 1;
      }
    }

    /** change_color(t2, t1, w): entries 0..254 of current_colors become the
        blend of palettes t1 (weight w) and t2 (weight 256 - w); the loop stops
        before entry 255, which keeps its value, and the palettes are only read. */
    method ChangeColor(t2: int, t1: int, w: int)
      requires Valid()
      requires 0 <= t1 < NbPalettes && 0 <= t2 < NbPalettes
      modifies currentColors
      ensures forall i :: 0 <= i < PaletteSize - 1 ==>
        currentColors[i] == Blend(colorTable[t1, i], colorTable[t2, i], w)
      ensures currentColors[PaletteSize - 1] == old(currentColors[PaletteSize - 1])
    {
      var i := 0;
      while i < 255
        invariant 0 <= i <= 255
        invariant forall i' :: 0 <= i' < i ==>
          currentColors[i'] == Blend(colorTable[t1, i'], colorTable[t2, i'], w)
        invariant currentColors[PaletteSize - 1] == old(currentColors[PaletteSize - 1])
      {
        var c1, c2 := colorTable[t1, i], colorTable[t2, i];
        var r := (c1.r * w + c2.r * (256 - w)) / 2048;
        var g := (c1.g * w + c2.g * (256 - w)) / 1024;
        var b := (c1.b * w + c2.b * (256 - w)) / 2048;
        currentColors[i] := (r * 2048 + g * 32 + b) % 0x1_0000;
        i := i + 1;
      }
    }

    /** display_surface: draws the index surface on the screen through
        current_colors. screen is the SDL pixel buffer, rows of pitch 16-bit
        pixels; at a scale above 2 the source's row loop has an empty body. */
    method DisplaySurface(screen: array2<u16>)
      requires Valid()
      requires Fits(screen.Length0, screen.Length1, width, height, scale)
      modifies screen
      ensures Rows(screen) == Blit(old(Rows(screen)), currentColors[..], surface[..], width, height, scale, screen.Length1)
    {
      if scale == 2 {
        DisplayDoubled(screen);
      } else if scale > 2 {
        BlitAboveScale2(Rows(screen), currentColors[..], surface[..], width, height, scale, screen.Length1);
      } else {
        DisplaySingle(screen);
      }
    }

    /** The scale-1 branch: surface row i goes through current_colors to
        screen row i, pixel for pixel. */
    method DisplaySingle(screen: array2<u16>)
      requires Valid() && scale <= 1
      requires Fits(screen.Length0, screen.Length1, width, height, scale)
      modifies screen
      ensures Rows(screen) == Blit(old(Rows(screen)), currentColors[..], surface[..], width, height, scale, screen.Length1)
    {
      ghost var s0 := Rows(screen);
      ghost var b := Blit(s0, currentColors[..], surface[..], width, height, scale, screen.Length1);
      var psrc := 0;
      var i := 0;
      while i < height
        invariant 0 <= i <= height && psrc == i * width
        invariant forall r, c :: 0 <= r < screen.Length0 && 0 <= c < screen.Length1 ==>
          screen[r, c] == if r < i then b[r][c] else s0[r][c]
      {
        psrc := SingleRow(screen, i, psrc, s0, b);
        i := i + 1;
      }
      SameRows(screen, b);
    }

    /** One scale-1 row: the width surface cells from psrc on, copied through
        current_colors to screen row i. b is the screen display_surface is to
        produce. Returns the index of the next surface row. */
    method SingleRow(screen: array2<u16>, i: int, psrc: int,
                     ghost s0: seq<seq<u16>>, ghost b: seq<seq<u16>>) returns (next: int)
      requires Valid() && scale <= 1
      requires Fits(screen.Length0, screen.Length1, width, height, scale)
      requires 0 <= i < height && psrc == i * width
      requires |s0| == screen.Length0 && Rect(s0, screen.Length1)
      requires b == Blit(s0, currentColors[..], surface[..], width, height, scale, screen.Length1)
      requires forall c :: 0 <= c < screen.Length1 ==> screen[i, c] == s0[i][c]
      modifies screen
      ensures next == psrc + width
      ensures forall r, c :: 0 <= r < screen.Length0 && 0 <= c < screen.Length1 ==>
        screen[r, c] == if r == i then b[r][c] else old(screen[r, c])
    {
      next := psrc;
      var j := 0;
      while j < width
        invariant 0 <= j <= width && next == psrc + j
        invariant forall r, c :: 0 <= r < screen.Length0 && 0 <= c < screen.Length1 ==>
          screen[r, c] == if r == i && c < j then b[r][c] else old(screen[r, c])
      {
        CellInBounds(width, height, Point(j, i));
        screen[i, j] := currentColors[surface[next]];
        next := next + 1;
        j := j + 1;
      }
    }

    /** The scale-2 branch: surface row i becomes the 2 x 2 blocks of screen
        rows 2i and 2i + 1. */
    method DisplayDoubled(screen: array2<u16>)
      requires Valid() && scale == 2
      requires Fits(screen.Length0, screen.Length1, width, height, scale)
      modifies screen
      ensures Rows(screen) == Blit(old(Rows(screen)), currentColors[..], surface[..], width, height, scale, screen.Length1)
    {
      ghost var s0 := Rows(screen);
      ghost var b := Blit(s0, currentColors[..], surface[..], width, height, scale, screen.Length1);
      var psrc := 0;
      var i := 0;
      while i < height
        invariant 0 <= i <= height && psrc == i * width
        invariant forall r, c :: 0 <= r < screen.Length0 && 0 <= c < screen.Length1 ==>
          screen[r, c] == if r < 2 * i then b[r][c] else s0[r][c]
      {
        DoubleRow(screen, i, psrc, s0, b);
        psrc := psrc + width;
        i := i + 1;
      }
      SameRows(screen, b);
    }

    /** One scale-2 row: for j = 1 .. width - 1 the colour of the next surface
        cell goes to two neighbouring pixels of screen row 2i, which memcpy
        then copies to row 2i + 1. b is the screen display_surface is to
        produce. */
    method DoubleRow(screen: array2<u16>, i: int, psrc: int,
                     ghost s0: seq<seq<u16>>, ghost b: seq<seq<u16>>)
      requires Valid() && scale == 2
      requires Fits(screen.Length0, screen.Length1, width, height, scale)
      requires 0 <= i < height && psrc == i * width
      requires |s0| == screen.Length0 && Rect(s0, screen.Length1)
      requires b == Blit(s0, currentColors[..], surface[..], width, height, scale, screen.Length1)
      requires forall c :: 0 <= c < screen.Length1 ==> screen[2 * i, c] == s0[2 * i][c]
      modifies screen
      ensures forall r, c :: 0 <= r < screen.Length0 && 0 <= c < screen.Length1 ==>
        screen[r, c] == if r == 2 * i || r == 2 * i + 1 then b[r][c] else old(screen[r, c])
    {
      var col := 0;
      var p := psrc;
      var j := 1;
      while j < width
        invariant 1 <= j <= Max(width, 1) && col == 2 * (j - 1) && p == psrc + j - 1
        invariant forall r, c :: 0 <= r < screen.Length0 && 0 <= c < screen.Length1 ==>
          screen[r, c] == if r == 2 * i && c < col then b[r][c] else old(screen[r, c])
      {
        CellInBounds(width, height, Point(j - 1, i));
        assert col / 2 == j - 1 && (col + 1) / 2 == j - 1 && (2 * i) / 2 == i;
        screen[2 * i, col] := currentColors[surface[p]];
        screen[2 * i, col + 1] := screen[2 * i, col];
        col, p := col + 2, p + 1;
        j := j + 1;
      }
      assert (2 * i) / 2 * 2 == 2 * i;
      DoubledRowRepeats(s0, currentColors[..], surface[..], width, height, screen.Length1, i);
      CopyRow(screen, 2 * i + 1, 2 * i);
    }

    /** A screen whose every pixel equals that of b holds exactly b. */
    lemma SameRows(screen: array2<u16>, b: seq<seq<u16>>)
      requires |b| == screen.Length0 && Rect(b, screen.Length1)
      requires forall r, c :: 0 <= r < screen.Length0 && 0 <= c < screen.Length1 ==> screen[r, c] == b[r][c]
      ensures Rows(screen) == b
    {
      var s := Rows(screen);
      forall r | 0 <= r < |b|
        ensures s[r] == b[r]
      {
      }
    }

    /** plot1(x, y, c). */
    method Plot1(x: int, y: int, c: byte)
      requires Valid()
      modifies surface
      ensures surface[..] == Plot1Of(old(surface[..]), width, height, Point(x, y), c)
    {
      if x > 0 && x < width - 3 && y > 0 && y < height - 3 {
        CellInBounds(width, height, Point(x, y));
        AssignMaxAt(x + y * width, c);
      }
    }

    /** plot2(x, y, c). */
    method Plot2(x: int, y: int, c: byte)
      requires Valid()
      modifies surface
      ensures surface[..] == Plot2Of(old(surface[..]), width, height, Point(x, y), c)
    {
      if x > 0 && x < width - 3 && y > 0 && y < height - 3 {
        CellInBounds(width, height, Point(x + 1, y + 1));
        var ty := y * width;
        assert x + 1 + (y + 1) * width == x + 1 + ty + width;
        AssignMaxAt(x + ty, c);
        AssignMaxAt(x + 1 + ty, c);
        AssignMaxAt(x + ty + width, c);
        AssignMaxAt(x + 1 + ty + width, c);
      }
    }

    /** The assign_max macro on surface cell n: the cell becomes max(old, c). */
    method AssignMaxAt(n: int, c: byte)
      requires Valid() && 0 <= n < surface.Length
      modifies surface
      ensures surface[..] == AssignMax(old(surface[..]), n, c)
    {
      if surface[n] <= c {
        surface[n] := c;
      }
    }

    /** line(x1, y1, x2, y2, c): steps the dominant axis from the nearer
        endpoint up to, but not including, the farther one, with the error
        accumulator cxy deciding each step of the minor axis. */
    method Line(x1: int, y1: int, x2: int, y2: int, c: int)
      requires Valid()
      modifies surface
      ensures surface[..] == LineOf(old(surface[..]), width, height, x1, y1, x2, y2, c)
    {
      var dx, dy := Abs(x1 - x2), Abs(y1 - y2);
      if dy > dx {
        // Follow the y axis, from the endpoint with the smaller y.
        if y1 > y2 {
          FollowY(x2, y2, x1, y1, c % 256);
        } else {
          FollowY(x1, y1, x2, y2, c % 256);
        }
      } else {
        // Follow the x axis, from the endpoint with the smaller x.
        if x1 > x2 {
          FollowX(x2, y2, x1, y1, c % 256);
        } else {
          FollowX(x1, y1, x2, y2, c % 256);
        }
      }
    }

    /** spectral, modes 0 to 2 (modes 3 and 4 are polar and computed in
        floating point): walks the columns i = 4, 8, ... below width, reads
        the two channels' samples at (i << 9) / width / 5 and draws the
        stride's segments with line in the spectral colour. */
    method Spectral(e: Effect)
      requires Valid() && e.modeSpectre != 3 && e.modeSpectre != 4
      modifies surface
      ensures surface[..] == DrawAll(old(surface[..]), width, height,
        Traces(pcm, width, height, e.modeSpectre, e.spectralShift, e.spectralAmplitude, NumStrides(width)),
        e.spectralColor)
    {
      ghost var s0 := surface[..];
      var mode, amplitude, color := e.modeSpectre, e.spectralAmplitude, e.spectralColor;
      var shift := Shift(e.spectralShift, height);
      var y1 := Baseline(pcm, amplitude, height);
      var y2 := Baseline(pcm, amplitude, height);
      ghost var n: nat := 0;
      var i := Step;
      while i < width
        invariant i == Step * (n + 1) && (n == 0 || Step * n < width)
        invariant y1 == TraceY(pcm, 1, n, width, amplitude, height)
        invariant y2 == TraceY(pcm, 0, n, width, amplitude, height)
        invariant surface[..] == DrawAll(s0, width, height,
          Traces(pcm, width, height, mode, e.spectralShift, amplitude, n), color)
      {
        y1, y2 := SpectralStride(s0, mode, e.spectralShift, amplitude, color, n, i, shift, y1, y2);
        n := n + 1;
        i := i + Step;
      }
      assert n == NumStrides(width);
    }

    /** One turn of spectral's loop, at column i = 4 (n + 1): reads the two
        channels' samples there and draws the stride from the previous
        heights to the new ones, which it returns. */
    method SpectralStride(ghost s0: seq<byte>, mode: int, spectralShift: int, amplitude: int,
                          color: int, ghost n: nat, i: int, shift: int, y1: int, y2: int)
      returns (ny1: int, ny2: int)
      requires Valid() && i == Step * (n + 1) && i < width && shift == Shift(spectralShift, height)
      requires y1 == TraceY(pcm, 1, n, width, amplitude, height)
      requires y2 == TraceY(pcm, 0, n, width, amplitude, height)
      requires Shaped(s0, width, height)
      requires surface[..] == DrawAll(s0, width, height,
        Traces(pcm, width, height, mode, spectralShift, amplitude, n), color)
      modifies surface
      ensures ny1 == TraceY(pcm, 1, n + 1, width, amplitude, height)
      ensures ny2 == TraceY(pcm, 0, n + 1, width, amplitude, height)
      ensures surface[..] == DrawAll(s0, width, height,
        Traces(pcm, width, height, mode, spectralShift, amplitude, n + 1), color)
    {
      SampleIndexInWindow(i, width);
      ny1 := Scaled(pcm[Window + SampleIndex(i, width)], amplitude, height);
      ny2 := Scaled(pcm[SampleIndex(i, width)], amplitude, height);
      DrawTracesStep(s0, pcm, width, height, mode, spectralShift, amplitude, n, color);
      DrawStride(mode, i, width / 2, height / 2, shift, y1, y2, ny1, ny2, color);
    }

    /** One pass of spectral's switch: the lines of one stride at column i. */
    method DrawStride(mode: int, i: int, halfwidth: int, halfheight: int, shift: int,
                      oldY1: int, oldY2: int, y1: int, y2: int, color: int)
      requires Valid()
      modifies surface
      ensures surface[..] == DrawAll(old(surface[..]), width, height,
        StrideSegments(mode, i, halfwidth, halfheight, shift, oldY1, oldY2, y1, y2), color)
    {
      ghost var s0 := surface[..];
      ghost var segs := StrideSegments(mode, i, halfwidth, halfheight, shift, oldY1, oldY2, y1, y2);
      if mode == 0 {
        Line(i - Step, halfheight + shift + oldY2, i, halfheight + shift + y2, color);
        DrawAllOne(s0, width, height, segs, color);
      } else if mode == 1 {
        var a := Segment(i - Step, halfheight + shift + oldY1, i, halfheight + shift + y1);
        var b := Segment(i - Step, halfheight - shift + oldY2, i, halfheight - shift + y2);
        Line(a.x1, a.y1, a.x2, a.y2, color);
        Line(b.x1, b.y1, b.x2, b.y2, color);
        assert segs == [a, b];
        DrawAllTwo(s0, width, height, [a, b], color);
      } else if mode == 2 {
        var a := Segment(i - Step, halfheight + shift + oldY1, i, halfheight + shift + y1);
        var b := Segment(i - Step, halfheight - shift + oldY1, i, halfheight - shift + y1);
        var c := Segment(halfwidth + shift + oldY2, i - Step, halfwidth + shift + y2, i);
        var d := Segment(halfwidth - shift + oldY2, i - Step, halfwidth - shift + y2, i);
        Line(a.x1, a.y1, a.x2, a.y2, color);
        Line(b.x1, b.y1, b.x2, b.y2, color);
        Line(c.x1, c.y1, c.x2, c.y2, color);
        Line(d.x1, d.y1, d.x2, d.y2, color);
        assert segs == [a, b, c, d];
        DrawAllFour(s0, width, height, [a, b, c, d], color);
      } else {
        assert segs == [];
      }
    }

    /** curve: two passes of 64 plot2 calls, both starting from the cursor
        x_curve; the cursor then advances to where the second pass stopped,
        x_curve + 64. */
    method Curve(e: Effect, pos: (int, int) -> Point)
      requires Valid()
      modifies surface, e`xCurve
      ensures e.xCurve == old(e.xCurve) + 64
      ensures surface[..] == Plot2All(old(surface[..]), width, height, CurvePoints(pos, old(e.xCurve)),
                                      e.curveColor % 256)
    {
      ghost var s0 := surface[..];
      ghost var ps := CurvePoints(pos, e.xCurve);
      var color := e.curveColor % 256;
      var k := e.xCurve;
      var j := 0;
      while j < 2
        invariant 0 <= j <= 2 && e.xCurve == old(e.xCurve) && (j > 0 ==> k == e.xCurve + 64)
        invariant surface[..] == Plot2All(s0, width, height, ps[..64 * j], color)
      {
        k := e.xCurve;
        var i := 0;
        while i < 64
          invariant 0 <= i <= 64 && e.xCurve == old(e.xCurve) && k == e.xCurve + i
          invariant surface[..] == Plot2All(s0, width, height, ps[..64 * j + i], color)
        {
          var p := pos(j, k);
          assert ps[64 * j + i] == p;
          assert ps[..64 * j + i + 1][..64 * j + i] == ps[..64 * j + i];
          Plot2(p.x, p.y, color);
          k := k + 1;
          i := i + 1;
        }
        j := j + 1;
      }
      assert ps[..128] == ps;
      e.xCurve := k;
    }

    /** display_set_pcm_data: takes a new audio snapshot for a two-channel
        stream; any other channel count is refused and the old snapshot kept. */
    method SetPcmData(data: seq<i16>, channels: int)
      requires Valid() && |data| == 2 * Window
      modifies this`pcm
      ensures Valid()
      ensures channels == 2 ==> pcm == data
      ensures channels != 2 ==> pcm == old(pcm)
    {
      if channels != 2 {
        return;
      }
      pcm := data;
    }

    /** The y-following loop of line, once the endpoints are ordered: D = dy,
        d = dx, the accumulator cxy stays in [0, D) and x has moved
        floor(k * dx / dy) towards xb after k steps. */
    method FollowY(xa: int, ya: int, xb: int, yb: int, color: byte)
      requires Valid() && ya <= yb && Abs(ya - yb) > Abs(xa - xb)
      modifies surface
      ensures surface[..] == PlotAll(old(surface[..]), width, height, LinePoints(xa, ya, xb, yb), color)
    {
      ghost var s0 := surface[..];
      LineCoversDominantAxis(xa, ya, xb, yb);
      var dx, dy := Abs(xa - xb), Abs(ya - yb);
      var dxy := if xa > xb then -1 else 1;
      var cxy := 0;
      var x, y := xa, ya;
      ghost var k, q := 0, 0;
      DivModUnique(k * dx, dy, 0, 0);
      while y < yb
        invariant y == ya + k && 0 <= k <= dy
        invariant cxy == k * dx % dy && q == k * dx / dy
        invariant x == xa + dxy * q
        invariant surface[..] == PlotAll(s0, width, height, LinePoints(xa, ya, xb, yb)[..k], color)
      {
        x, cxy, q := SteepStep(s0, xa, ya, xb, yb, dx, dy, dxy, color, k, x, y, cxy, q);
        y := y + 1;
        k := k + 1;
      }
      assert LinePoints(xa, ya, xb, yb)[..k] == LinePoints(xa, ya, xb, yb);
    }

    /** One pass of the y-following loop at y = ya + k: steps the accumulator,
        moves x when it carries, and plots (x, y), which is point k of the line. */
    method SteepStep(ghost s0: seq<byte>, xa: int, ya: int, xb: int, yb: int,
                     dx: int, dy: int, dxy: int, color: byte, ghost k: nat,
                     x: int, y: int, cxy: int, ghost q: int)
      returns (x': int, cxy': int, ghost q': int)
      requires Valid() && Shaped(s0, width, height)
      requires ya <= yb && dx == Abs(xa - xb) && dy == Abs(ya - yb) && dy > dx
      requires dxy == (if xa > xb then -1 else 1)
      requires 0 <= k < dy && y == ya + k
      requires cxy == k * dx % dy && q == k * dx / dy && x == xa + dxy * q
      requires surface[..] == PlotAll(s0, width, height, LinePoints(xa, ya, xb, yb)[..k], color)
      modifies surface
      ensures cxy' == (k + 1) * dx % dy && q' == (k + 1) * dx / dy && x' == xa + dxy * q'
      ensures surface[..] == PlotAll(s0, width, height, LinePoints(xa, ya, xb, yb)[..k + 1], color)
    {
      ghost var ps := LinePoints(xa, ya, xb, yb);
      x', cxy', q' := x, cxy + dx, q;
      if cxy' >= dy {
        x' := x' + dxy;
        q' := q' + 1;
        cxy' := cxy' - dy;
      }
      CarryStep(k, dx, dy, cxy, q, cxy', q');
      SteepPoint(xa, ya, xb, yb, k);
      assert ps[k] == Point(x', y);
      PlotAllPrefix(s0, width, height, ps, k, color);
      Plot1(x', y, color);
    }

    /** The x-following loop of line, once the endpoints are ordered: D = dx,
        d = dy (ties included). */
    method FollowX(xa: int, ya: int, xb: int, yb: int, color: byte)
      requires Valid() && xa <= xb && Abs(ya - yb) <= Abs(xa - xb)
      modifies surface
      ensures surface[..] == PlotAll(old(surface[..]), width, height, LinePoints(xa, ya, xb, yb), color)
    {
      ghost var s0 := surface[..];
      LineCoversDominantAxis(xa, ya, xb, yb);
      var dx, dy := Abs(xa - xb), Abs(ya - yb);
      var dxy := if ya > yb then -1 else 1;
      var cxy := 0;
      var x, y := xa, ya;
      ghost var k, q := 0, 0;
      if dx > 0 {
        DivModUnique(k * dy, dx, 0, 0);
      }
      while x < xb
        invariant x == xa + k && 0 <= k <= dx
        invariant dx > 0 ==> cxy == k * dy % dx
        invariant dx > 0 ==> q == k * dy / dx
        invariant y == ya + dxy * q
        invariant surface[..] == PlotAll(s0, width, height, LinePoints(xa, ya, xb, yb)[..k], color)
      {
        y, cxy, q := ShallowStep(s0, xa, ya, xb, yb, dx, dy, dxy, color, k, x, y, cxy, q);
        x := x + 1;
        k := k + 1;
      }
      assert LinePoints(xa, ya, xb, yb)[..k] == LinePoints(xa, ya, xb, yb);
    }

    /** One pass of the x-following loop at x = xa + k: steps the accumulator,
        moves y when it carries, and plots (x, y), which is point k of the line. */
    method ShallowStep(ghost s0: seq<byte>, xa: int, ya: int, xb: int, yb: int,
                       dx: int, dy: int, dxy: int, color: byte, ghost k: nat,
                       x: int, y: int, cxy: int, ghost q: int)
      returns (y': int, cxy': int, ghost q': int)
      requires Valid() && Shaped(s0, width, height)
      requires xa <= xb && dx == Abs(xa - xb) && dy == Abs(ya - yb) && dy <= dx
      requires dxy == (if ya > yb then -1 else 1)
      requires 0 <= k < dx && x == xa + k
      requires cxy == k * dy % dx && q == k * dy / dx && y == ya + dxy * q
      requires surface[..] == PlotAll(s0, width, height, LinePoints(xa, ya, xb, yb)[..k], color)
      modifies surface
      ensures cxy' == (k + 1) * dy % dx && q' == (k + 1) * dy / dx && y' == ya + dxy * q'
      ensures surface[..] == PlotAll(s0, width, height, LinePoints(xa, ya, xb, yb)[..k + 1], color)
    {
      ghost var ps := LinePoints(xa, ya, xb, yb);
      y', cxy', q' := y, cxy + dy, q;
      if cxy' >= dx {
        y' := y' + dxy;
        q' := q' + 1;
        cxy' := cxy' - dx;
      }
      CarryStep(k, dy, dx, cxy, q, cxy', q');
      ShallowPoint(xa, ya, xb, yb, k);
      assert ps[k] == Point(x, y');
      PlotAllPrefix(s0, width, height, ps, k, color);
      Plot1(x, y', color);
    }
  }

  /** The memcpy of display_surface: screen row src copied over row dst. */
  method CopyRow(a: array2<u16>, dst: int, src: int)
    requires 0 <= dst < a.Length0 && 0 <= src < a.Length0 && dst != src
    modifies a
    ensures forall r, c :: 0 <= r < a.Length0 && 0 <= c < a.Length1 ==>
      a[r, c] == if r == dst then old(a[src, c]) else old(a[r, c])
  {
    var c := 0;
    while c < a.Length1
      invariant 0 <= c <= a.Length1
      invariant forall r, c' :: 0 <= r < a.Length0 && 0 <= c' < a.Length1 ==>
        a[r, c'] == if r == dst && c' < c then old(a[src, c']) else old(a[r, c'])
    {
      a[dst, c] := a[src, c];
      c := c + 1;
    }
  }
}
