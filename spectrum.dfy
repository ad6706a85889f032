/** The integer part of the spectrum effect `spectral` of src/display.c, modes
    0 to 2: which line segments it draws, in which order, from the audio
    snapshot and the effect parameters. The Display module's Spectral method
    is proved to draw exactly Traces(...). */
module Spectrum {
  import opened Palette
  import opened Raster

  /** A signed 16-bit audio sample. */
  type i16 = x: int | -0x8000 <= x < 0x8000

  /** Samples per channel in the snapshot (pcm_data[2][512]); the snapshot is
      held flat, pcm_data[ch][n] at ch * Window + n. */
  const Window: nat := 512
  /** The horizontal stride between successive trace points. */
  const Step: nat := 4
  /** density_lines: the divisor that spreads the window over the width. */
  const DensityLines: nat := 5

  /** The arguments of one call of line(x1, y1, x2, y2, color). */
  datatype Segment = Segment(x1: int, y1: int, x2: int, y2: int)

  /** shift = (spectral_shift * height) >> 8 (an arithmetic shift). */
  function Shift(spectralShift: int, height: int): int {
    spectralShift * height / 256
  }

  /** The sample a trace point at column i reads: (i << 9) / width / density_lines. */
  function SampleIndex(i: nat, width: nat): int
    requires 0 < width
  {
    i * 512 / width / DensityLines
  }

  /** For every stride position step <= i < width the sample index is at most
      102, so every read of the snapshot stays inside its 512 samples. */
  lemma {:induction false} SampleIndexInWindow(i: nat, width: nat)
    requires Step <= i < width
    ensures 0 <= SampleIndex(i, width) <= 102
  {
    var q := i * 512 / width;
    assert i * 512 == width * q + i * 512 % width;
    if q >= 512 {
      MulMono(width, width, 512, q);
      assert false;
    }
    DivMono(q, 511, DensityLines);
  }

  /** The height, in pixels, of a sample v: ((v >> 8) * amplitude * height) >> 12. */
  function Scaled(v: int, amplitude: int, height: int): int {
    v / 256 * amplitude * height / 4096
  }

  /** The starting height of both traces, from the first sample of both channels:
      (((l + r) >> 9) * amplitude * height) >> 12. */
  function Baseline(pcm: seq<i16>, amplitude: int, height: int): int
    requires |pcm| == 2 * Window
  {
    (pcm[0] + pcm[Window]) / 512 * amplitude * height / 4096
  }

  /** The number of strides spectral makes: i = 4, 8, ... while i < width. */
  function NumStrides(width: int): nat {
    if width <= Step then 0 else (width - 1) / Step
  }

  /** The stride positions are exactly the multiples of 4 in [4, width). */
  lemma StridesCoverWidth(width: int)
    ensures Step * NumStrides(width) < width || NumStrides(width) == 0
    ensures width <= Step * (NumStrides(width) + 1)
  {
  }

  /** The height of trace ch (y1 reads channel 1, y2 channel 0) after n
      strides: the baseline for n == 0, the sample at column 4n otherwise.
      The sample index always lies inside the channel (SampleIndexInWindow),
      so the value 0 for an index outside it is never produced. */
  function TraceY(pcm: seq<i16>, ch: nat, n: nat, width: nat, amplitude: int, height: int): int
    requires |pcm| == 2 * Window && ch < 2 && (n == 0 || Step * n < width)
  {
    if n == 0 then Baseline(pcm, amplitude, height)
    else
      var k := SampleIndex(Step * n, width);
      if 0 <= k < Window then Scaled(pcm[ch * Window + k], amplitude, height) else 0
  }

  /** The segments one stride at column i draws, given the previous and the new
      heights of the two traces. Mode 0: one trace of channel 0 shifted down;
      mode 1: channel 1 shifted down and channel 0 shifted up; mode 2: channel 1
      twice horizontally and channel 0 twice vertically, a cross. Other modes
      draw nothing here (modes 3 and 4 are polar and not part of this model). */
  function StrideSegments(mode: int, i: int, halfWidth: int, halfHeight: int, shift: int,
                          oldY1: int, oldY2: int, y1: int, y2: int): (segs: seq<Segment>)
    ensures |segs| == LinesPerStride(mode)
  {
    if mode == 0 then
      [Segment(i - Step, halfHeight + shift + oldY2, i, halfHeight + shift + y2)]
    else if mode == 1 then
      [Segment(i - Step, halfHeight + shift + oldY1, i, halfHeight + shift + y1),
       Segment(i - Step, halfHeight - shift + oldY2, i, halfHeight - shift + y2)]
    else if mode == 2 then
      [Segment(i - Step, halfHeight + shift + oldY1, i, halfHeight + shift + y1),
       Segment(i - Step, halfHeight - shift + oldY1, i, halfHeight - shift + y1),
       Segment(halfWidth + shift + oldY2, i - Step, halfWidth + shift + y2, i),
       Segment(halfWidth - shift + oldY2, i - Step, halfWidth - shift + y2, i)]
    else []
  }

  /** Lines drawn per stride in each mode. */
  function LinesPerStride(mode: int): nat {
    if mode == 0 then 1 else if mode == 1 then 2 else if mode == 2 then 4 else 0
  }

  /** Every segment spectral draws in its first n strides, in drawing order. */
  function Traces(pcm: seq<i16>, width: nat, height: nat, mode: int, spectralShift: int,
                  amplitude: int, n: nat): (segs: seq<Segment>)
    requires |pcm| == 2 * Window && (n == 0 || Step * n < width)
  {
    if n == 0 then []
    else
      Traces(pcm, width, height, mode, spectralShift, amplitude, n - 1) +
      StrideSegments(mode, Step * n, width / 2, height / 2, Shift(spectralShift, height),
                     TraceY(pcm, 1, n - 1, width, amplitude, height),
                     TraceY(pcm, 0, n - 1, width, amplitude, height),
                     TraceY(pcm, 1, n, width, amplitude, height),
                     TraceY(pcm, 0, n, width, amplitude, height))
  }

  /** One more stride appends that stride's segments. */
  lemma TracesStep(pcm: seq<i16>, width: nat, height: nat, mode: int, spectralShift: int,
                   amplitude: int, n: nat)
    requires |pcm| == 2 * Window && Step * (n + 1) < width
    ensures Traces(pcm, width, height, mode, spectralShift, amplitude, n + 1) ==
      Traces(pcm, width, height, mode, spectralShift, amplitude, n) +
      StrideSegments(mode, Step * (n + 1), width / 2, height / 2, Shift(spectralShift, height),
                     TraceY(pcm, 1, n, width, amplitude, height),
                     TraceY(pcm, 0, n, width, amplitude, height),
                     TraceY(pcm, 1, n + 1, width, amplitude, height),
                     TraceY(pcm, 0, n + 1, width, amplitude, height))
  {
  }

  /** Drawing n + 1 strides is drawing n strides and then the last one. */
  lemma DrawTracesStep(s: seq<byte>, pcm: seq<i16>, width: nat, height: nat, mode: int,
                       spectralShift: int, amplitude: int, n: nat, c: int)
    requires Shaped(s, width, height) && |pcm| == 2 * Window && Step * (n + 1) < width
    ensures DrawAll(s, width, height, Traces(pcm, width, height, mode, spectralShift, amplitude, n + 1), c) ==
      DrawAll(DrawAll(s, width, height, Traces(pcm, width, height, mode, spectralShift, amplitude, n), c),
              width, height,
              StrideSegments(mode, Step * (n + 1), width / 2, height / 2, Shift(spectralShift, height),
                             TraceY(pcm, 1, n, width, amplitude, height),
                             TraceY(pcm, 0, n, width, amplitude, height),
                             TraceY(pcm, 1, n + 1, width, amplitude, height),
                             TraceY(pcm, 0, n + 1, width, amplitude, height)), c)
  {
    TracesStep(pcm, width, height, mode, spectralShift, amplitude, n);
    DrawAllAppend(s, width, height, Traces(pcm, width, height, mode, spectralShift, amplitude, n),
                  StrideSegments(mode, Step * (n + 1), width / 2, height / 2, Shift(spectralShift, height),
                                 TraceY(pcm, 1, n, width, amplitude, height),
                                 TraceY(pcm, 0, n, width, amplitude, height),
                                 TraceY(pcm, 1, n + 1, width, amplitude, height),
                                 TraceY(pcm, 0, n + 1, width, amplitude, height)), c);
  }

  /** Each stride emits one, two or four lines, by mode. */
  lemma {:induction false} TracesCount(pcm: seq<i16>, width: nat, height: nat, mode: int,
                                       spectralShift: int, amplitude: int, n: nat)
    requires |pcm| == 2 * Window && (n == 0 || Step * n < width)
    ensures |Traces(pcm, width, height, mode, spectralShift, amplitude, n)| == n * LinesPerStride(mode)
  {
    if n > 0 {
      TracesCount(pcm, width, height, mode, spectralShift, amplitude, n - 1);
      var m := LinesPerStride(mode);
      assert n * m == (n - 1) * m + m;
    }
  }

  /** With a silent snapshot in mode 0 every segment is horizontal at
      y = height/2 + shift and runs from x = i - 4 to x = i. */
  lemma {:induction false} SilentTraceIsFlat(pcm: seq<i16>, width: nat, height: nat,
                                             spectralShift: int, amplitude: int, n: nat)
    requires |pcm| == 2 * Window && (n == 0 || Step * n < width)
    requires forall k :: 0 <= k < |pcm| ==> pcm[k] == 0
    ensures var segs := Traces(pcm, width, height, 0, spectralShift, amplitude, n);
      var y := height / 2 + Shift(spectralShift, height);
      |segs| == n &&
      forall k :: 0 <= k < n ==> segs[k] == Segment(Step * k, y, Step * k + Step, y)
  {
    if n > 0 {
      SilentTraceIsFlat(pcm, width, height, spectralShift, amplitude, n - 1);
      var y := height / 2 + Shift(spectralShift, height);
      SilentSample(pcm, 0, n - 1, width, amplitude, height);
      SilentSample(pcm, 0, n, width, amplitude, height);
      var prev := Traces(pcm, width, height, 0, spectralShift, amplitude, n - 1);
      var segs := Traces(pcm, width, height, 0, spectralShift, amplitude, n);
      assert segs == prev + [Segment(Step * n - Step, y, Step * n, y)];
      forall k | 0 <= k < n
        ensures segs[k] == Segment(Step * k, y, Step * k + Step, y)
      {
        if k < n - 1 {
          assert segs[k] == prev[k];
        }
      }
    }
  }

  /** A silent snapshot gives height 0 on both traces at every stride. */
  lemma SilentSample(pcm: seq<i16>, ch: nat, n: nat, width: nat, amplitude: int, height: int)
    requires |pcm| == 2 * Window && ch < 2 && (n == 0 || Step * n < width)
    requires forall k :: 0 <= k < |pcm| ==> pcm[k] == 0
    ensures TraceY(pcm, ch, n, width, amplitude, height) == 0
  {
    if n > 0 {
      SampleIndexInWindow(Step * n, width);
      assert pcm[ch * Window + SampleIndex(Step * n, width)] == 0;
    } else {
      assert pcm[0] == 0 && pcm[Window] == 0;
    }
  }

  /** A horizontal segment of length len plots len points on its row, from its
      left end inclusive to its right end exclusive. */
  lemma HorizontalLine(x: int, y: int, len: nat)
    ensures LinePoints(x, y, x + len, y) == seq(len, k => Point(x + k, y))
  {
  }

  /** The surface after line for each segment in turn. */
  function DrawAll(s: seq<byte>, w: int, h: int, segs: seq<Segment>, c: int): (r: seq<byte>)
    requires Shaped(s, w, h)
    ensures Shaped(r, w, h)
    decreases |segs|
  {
    if segs == [] then s
    else
      Draw(DrawAll(s, w, h, segs[..|segs| - 1], c), w, h, segs[|segs| - 1], c)
  }

  /** The surface after line for segment g. */
  function Draw(s: seq<byte>, w: int, h: int, g: Segment, c: int): (r: seq<byte>)
    requires Shaped(s, w, h)
    ensures Shaped(r, w, h)
  {
    LineOf(s, w, h, g.x1, g.y1, g.x2, g.y2, c)
  }

  /** Drawing one segment is one line call. */
  lemma DrawAllOne(s: seq<byte>, w: int, h: int, segs: seq<Segment>, c: int)
    requires Shaped(s, w, h) && |segs| == 1
    ensures DrawAll(s, w, h, segs, c) == Draw(s, w, h, segs[0], c)
  {
    assert segs[..0] == [];
  }

  /** Drawing two segments is two line calls, in order. */
  lemma DrawAllTwo(s: seq<byte>, w: int, h: int, segs: seq<Segment>, c: int)
    requires Shaped(s, w, h) && |segs| == 2
    ensures DrawAll(s, w, h, segs, c) == Draw(Draw(s, w, h, segs[0], c), w, h, segs[1], c)
  {
    DrawAllOne(s, w, h, segs[..1], c);
  }

  /** Drawing four segments is four line calls, in order. */
  lemma DrawAllFour(s: seq<byte>, w: int, h: int, segs: seq<Segment>, c: int)
    requires Shaped(s, w, h) && |segs| == 4
    ensures DrawAll(s, w, h, segs, c) ==
      Draw(Draw(Draw(Draw(s, w, h, segs[0], c), w, h, segs[1], c), w, h, segs[2], c), w, h, segs[3], c)
  {
    DrawAllTwo(s, w, h, segs[..2], c);
    assert segs[..3][..2] == segs[..2];
  }

  /** Drawing a + b is drawing a, then b. */
  lemma {:induction false} DrawAllAppend(s: seq<byte>, w: int, h: int, a: seq<Segment>, b: seq<Segment>, c: int)
    requires Shaped(s, w, h)
    ensures DrawAll(s, w, h, a + b, c) == DrawAll(DrawAll(s, w, h, a, c), w, h, b, c)
    decreases |b|
  {
    if b == [] {
      assert a + b == a;
    } else {
      DrawAllAppend(s, w, h, a, b[..|b| - 1], c);
      assert (a + b)[..|a + b| - 1] == a + b[..|b| - 1];
    }
  }
}
