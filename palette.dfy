/** The colour side of the renderer: the five 256-entry palettes built by
    generate_colors and the 16-bit RGB565 blend of two of them computed by
    change_color (src/display.c). Everything here is pure; the tables that
    hold these values live in the Display module. */
module Palette {

  /** An 8-bit value: an SDL_Color channel or an index-surface cell. */
  type byte = x: int | 0 <= x < 0x100

  /** A 16-bit bit pattern, as stored in a gint16 slot of current_colors or of the screen. */
  type u16 = x: int | 0 <= x < 0x1_0000

  /** One SDL_Color palette entry (the unused fourth byte plays no part). */
  datatype Rgb = Rgb(r: byte, g: byte, b: byte)

  /** NB_PALETTES: the number of rows of the anchor table. */
  const NbPalettes: nat := 5
  /** Entries per palette. */
  const PaletteSize: nat := 256
  /** Entries per half of a palette. */
  const HalfSize: nat := 128

  /** The anchor colours of generate_colors, doubled: every anchor is a multiple
      of 0.5, so Anchor2(k, h, ch) == 2 * colors[k][h][ch] is an integer.
      h == 0 is the low-half anchor a0, h == 1 the high-half anchor a1;
      ch is 0 for red, 1 for green, 2 for blue. */
  function Anchor2(k: nat, h: nat, ch: nat): (a: nat)
    requires k < NbPalettes && h < 2 && ch < 3
  {
    [[[2, 2, 2], [2, 2, 2]],
     [[4, 3, 0], [0, 1, 4]],
     [[0, 2, 4], [0, 2, 0]],
     [[0, 4, 2], [0, 0, 2]],
     [[4, 0, 0], [0, 2, 2]]][k][h][ch]
  }

  /** The anchors of every palette and channel satisfy a0 + a1 <= 2, which is
      what keeps the top of each ramp inside a byte. */
  lemma AnchorsBounded(k: nat, ch: nat)
    requires k < NbPalettes && ch < 3
    ensures Anchor2(k, 0, ch) <= 4
    ensures Anchor2(k, 0, ch) + Anchor2(k, 1, ch) <= 4
  {
  }

  /** Channel ch of entry i of palette k: (Uint8)(a0 * i) in the low half and
      (Uint8)(a0 * 127 + a1 * (i - 128)) in the high half, computed on the
      doubled anchors. Every value lies in 0..254, so the cast never wraps. */
  function RampChannel(k: nat, i: nat, ch: nat): (v: int)
    requires k < NbPalettes && i < PaletteSize && ch < 3
    ensures 0 <= v <= 254
  {
    AnchorsBounded(k, ch);
    var a0, a1 := Anchor2(k, 0, ch), Anchor2(k, 1, ch);
    if i < HalfSize then
      assert a0 * i <= 4 * 127 by { MulMono(a0, 4, i, 127); }
      a0 * i / 2
    else
      assert a0 * 127 + a1 * (i - HalfSize) <= 4 * 127 by {
        MulMono(a1, 4 - a0, i - HalfSize, 127);
      }
      (a0 * 127 + a1 * (i - HalfSize)) / 2
  }

  /** Entry i of palette k as generate_colors leaves it in color_table[k][i]. */
  function PaletteEntry(k: nat, i: nat): Rgb
    requires k < NbPalettes && i < PaletteSize
  {
    Rgb(RampChannel(k, i, 0), RampChannel(k, i, 1), RampChannel(k, i, 2))
  }

  lemma MulMono(a: int, b: int, x: int, y: int)
    requires 0 <= a <= b && 0 <= x <= y
    ensures a * x <= b * y
  {
    assert a * x <= b * x;
  }

  /** The doubled-integer channel is exactly the truncation of the product the
      source computes in floating point: trunc(a0 * i), resp.
      trunc(a0 * 127 + a1 * i) for entry i + 128. */
  lemma {:induction false} RampIsTruncation(k: nat, i: nat, ch: nat)
    requires k < NbPalettes && i < PaletteSize && ch < 3
    ensures var a0 := Anchor2(k, 0, ch) as real / 2.0;
            var a1 := Anchor2(k, 1, ch) as real / 2.0;
            RampChannel(k, i, ch) ==
              if i < HalfSize then (a0 * i as real).Floor
              else (a0 * 127.0 + a1 * (i - HalfSize) as real).Floor
  {
    var a0, a1 := Anchor2(k, 0, ch), Anchor2(k, 1, ch);
    var p := if i < HalfSize then a0 * i else a0 * 127 + a1 * (i - HalfSize);
    HalfFloor(p);
    if i < HalfSize {
      assert p as real / 2.0 == (a0 as real / 2.0) * i as real;
    } else {
      assert p as real / 2.0
          == (a0 as real / 2.0) * 127.0 + (a1 as real / 2.0) * (i - HalfSize) as real;
    }
  }

  lemma HalfFloor(p: nat)
    ensures p / 2 == (p as real / 2.0).Floor
  {
    var q := p / 2;
    assert p == 2 * q || p == 2 * q + 1;
    assert q as real <= p as real / 2.0 < q as real + 1.0;
  }

  /** Each palette is a non-decreasing ramp: for every channel, a later entry is
      never darker than an earlier one, across the seam between the halves too. */
  lemma {:induction false} RampMonotone(k: nat, i: nat, j: nat, ch: nat)
    requires k < NbPalettes && i <= j < PaletteSize && ch < 3
    ensures RampChannel(k, i, ch) <= RampChannel(k, j, ch)
  {
    var a0, a1 := Anchor2(k, 0, ch), Anchor2(k, 1, ch);
    if j < HalfSize {
      MulMono(a0, a0, i, j);
    } else if i < HalfSize {
      MulMono(a0, a0, i, 127);
      MulMono(0, a1, 0, j - HalfSize);
    } else {
      MulMono(a1, a1, i - HalfSize, j - HalfSize);
    }
  }

  /** The two halves meet: entry 128 repeats entry 127, i.e. the high half starts
      where the low half ended. */
  lemma RampSeam(k: nat, ch: nat)
    requires k < NbPalettes && ch < 3
    ensures RampChannel(k, HalfSize, ch) == RampChannel(k, HalfSize - 1, ch)
  {
  }

  /** The RGB565 layout: red in bits 11-15, green in bits 5-10, blue in bits 0-4. */
  function Pack565(r: int, g: int, b: int): int {
    r * 2048 + g * 32 + b
  }

  function RedOf(v: u16): int { v / 2048 }
  function GreenOf(v: u16): int { v / 32 % 64 }
  function BlueOf(v: u16): int { v % 32 }

  /** Packing fields that fit their widths gives a 16-bit value from which the
      three fields read back unchanged: the fields never overlap. */
  lemma {:induction false} Pack565RoundTrip(r: int, g: int, b: int)
    requires 0 <= r < 32 && 0 <= g < 64 && 0 <= b < 32
    ensures 0 <= Pack565(r, g, b) < 0x1_0000
    ensures RedOf(Pack565(r, g, b)) == r
    ensures GreenOf(Pack565(r, g, b)) == g
    ensures BlueOf(Pack565(r, g, b)) == b
  {
    var v := Pack565(r, g, b);
    assert v == 2048 * r + (32 * g + b) && 0 <= 32 * g + b < 2048;
    DivModUnique(v, 2048, r, 32 * g + b);
    assert v == 32 * (64 * r + g) + b;
    DivModUnique(v, 32, 64 * r + g, b);
    DivModUnique(64 * r + g, 64, r, g);
  }

  lemma DivModUnique(n: int, d: int, q: int, m: int)
    requires 0 < d && n == d * q + m && 0 <= m < d
    ensures n / d == q && n % d == m
  {
    var q', m' := n / d, n % d;
    assert n == d * q' + m' && 0 <= m' < d;
    if q' < q {
      MulMono(d, d, 1, q - q');
    } else if q < q' {
      MulMono(d, d, 1, q' - q);
    }
  }

  /** The ordinary 8-bit to RGB565 reduction of one palette entry:
      (r >> 3) << 11 | (g >> 2) << 5 | (b >> 3). */
  function Rgb565(c: Rgb): (v: u16)
    ensures RedOf(v) == c.r / 8 && GreenOf(v) == c.g / 4 && BlueOf(v) == c.b / 8
  {
    Pack565RoundTrip(c.r / 8, c.g / 4, c.b / 8);
    Pack565(c.r / 8, c.g / 4, c.b / 8)
  }

  /** One channel of the weighted sum change_color forms, shifted right by
      log2(d): a * w + b * (256 - w) >> 11 (red, blue) or >> 10 (green). The
      shift of a signed int is an arithmetic shift, i.e. floor division. */
  function Mix(a: int, b: int, w: int, d: nat): int
    requires 0 < d
  {
    (a * w + b * (256 - w)) / d
  }

  /** The red, green and blue fields change_color computes before packing. */
  function BlendRed(c1: Rgb, c2: Rgb, w: int): int { Mix(c1.r, c2.r, w, 2048) }
  function BlendGreen(c1: Rgb, c2: Rgb, w: int): int { Mix(c1.g, c2.g, w, 1024) }
  function BlendBlue(c1: Rgb, c2: Rgb, w: int): int { Mix(c1.b, c2.b, w, 2048) }

  /** The value change_color(t2, t1, w) stores in current_colors[i], with c1 the
      entry of palette t1 (weight w) and c2 that of palette t2 (weight 256 - w):
      (r << 11) + (g << 5) + b, kept as the 16-bit pattern the gint16 slot holds. */
  function Blend(c1: Rgb, c2: Rgb, w: int): u16 {
    Pack565(BlendRed(c1, c2, w), BlendGreen(c1, c2, w), BlendBlue(c1, c2, w)) % 0x1_0000
  }

  function Min(a: int, b: int): int { if a <= b then a else b }
  function Max(a: int, b: int): int { if a <= b then b else a }

  lemma WeightedBounds(a: int, b: int, w: int)
    requires 0 <= a < 256 && 0 <= b < 256 && 0 <= w <= 256
    ensures 256 * Min(a, b) <= a * w + b * (256 - w) <= 256 * Max(a, b)
  {
    var lo, hi := Min(a, b), Max(a, b);
    assert a * w + b * (256 - w) == lo * 256 + (a - lo) * w + (b - lo) * (256 - w);
    assert a * w + b * (256 - w) == hi * 256 - (hi - a) * w - (hi - b) * (256 - w);
    MulMono(0, a - lo, 0, w);
    MulMono(0, b - lo, 0, 256 - w);
    MulMono(0, hi - a, 0, w);
    MulMono(0, hi - b, 0, 256 - w);
  }

  lemma DivMono(a: int, b: int, d: int)
    requires a <= b && 0 < d
    ensures a / d <= b / d
  {
    var qa, qb := a / d, b / d;
    assert a == d * qa + a % d && b == d * qb + b % d;
    if qb < qa {
      MulMono(d, d, 1, qa - qb);
    }
  }

  /** 256 * x / (256 * s) == x / s: the scale-down identity behind the shifts. */
  lemma ScaledDiv(x: int, s: int)
    requires 0 <= x && 0 < s
    ensures 256 * x / (256 * s) == x / s
  {
    var q, m := x / s, x % s;
    assert 256 * x == (256 * s) * q + 256 * m;
    DivModUnique(256 * x, 256 * s, q, 256 * m);
  }

  /** A channel mixed with weights w and 256 - w and reduced by the factor s
      (8 for 5-bit fields, 4 for 6-bit fields) lies between the reduced values
      of the two channels it mixes, and so inside the field. */
  lemma {:induction false} MixBetween(a: byte, b: byte, w: int, s: nat)
    requires 0 <= w <= 256 && 0 < s
    ensures Min(a, b) / s <= Mix(a, b, w, 256 * s) <= Max(a, b) / s <= 255 / s
  {
    WeightedBounds(a, b, w);
    DivMono(256 * Min(a, b), a * w + b * (256 - w), 256 * s);
    DivMono(a * w + b * (256 - w), 256 * Max(a, b), 256 * s);
    ScaledDiv(Min(a, b), s);
    ScaledDiv(Max(a, b), s);
    DivMono(Max(a, b), 255, s);
  }

  /** For a weight in 0..256 the blend is a true RGB565 value: red and blue fit
      in 5 bits and green in 6, so nothing is lost to the 16-bit slot and the
      fields never overlap; each field read back from the stored value lies
      between the RGB565 fields of the two palette entries it mixes. */
  lemma {:induction false} BlendIsRgb565(c1: Rgb, c2: Rgb, w: int)
    requires 0 <= w <= 256
    ensures 0 <= BlendRed(c1, c2, w) < 32
    ensures 0 <= BlendGreen(c1, c2, w) < 64
    ensures 0 <= BlendBlue(c1, c2, w) < 32
    ensures Blend(c1, c2, w) == Pack565(BlendRed(c1, c2, w), BlendGreen(c1, c2, w), BlendBlue(c1, c2, w))
    ensures Min(c1.r, c2.r) / 8 <= RedOf(Blend(c1, c2, w)) <= Max(c1.r, c2.r) / 8
    ensures Min(c1.g, c2.g) / 4 <= GreenOf(Blend(c1, c2, w)) <= Max(c1.g, c2.g) / 4
    ensures Min(c1.b, c2.b) / 8 <= BlueOf(Blend(c1, c2, w)) <= Max(c1.b, c2.b) / 8
  {
    var r, g, b := BlendRed(c1, c2, w), BlendGreen(c1, c2, w), BlendBlue(c1, c2, w);
    MixBetween(c1.r, c2.r, w, 8);
    MixBetween(c1.g, c2.g, w, 4);
    MixBetween(c1.b, c2.b, w, 8);
    StoredUnchanged(r, g, b);
  }

  /** Fields that fit their widths pack to a value the 16-bit slot keeps as is. */
  lemma StoredUnchanged(r: int, g: int, b: int)
    requires 0 <= r < 32 && 0 <= g < 64 && 0 <= b < 32
    ensures Pack565(r, g, b) % 0x1_0000 == Pack565(r, g, b)
    ensures RedOf(Pack565(r, g, b) % 0x1_0000) == r
    ensures GreenOf(Pack565(r, g, b) % 0x1_0000) == g
    ensures BlueOf(Pack565(r, g, b) % 0x1_0000) == b
  {
    Pack565RoundTrip(r, g, b);
    DivModUnique(Pack565(r, g, b), 0x1_0000, 0, Pack565(r, g, b));
  }

  /** At full weight (w == 256) the blend is exactly the RGB565 reduction of the
      entry of palette t1: with weights adding up to 256, the shift counts
      11/10/11 are the 5-6-5 reduction. */
  lemma BlendAtFullWeight(c1: Rgb, c2: Rgb)
    ensures Blend(c1, c2, 256) == Rgb565(c1)
  {
    assert BlendRed(c1, c2, 256) == c1.r / 8 by { ScaledDiv(c1.r, 8); }
    assert BlendGreen(c1, c2, 256) == c1.g / 4 by { ScaledDiv(c1.g, 4); }
    assert BlendBlue(c1, c2, 256) == c1.b / 8 by { ScaledDiv(c1.b, 8); }
    StoredUnchanged(c1.r / 8, c1.g / 4, c1.b / 8);
  }

  /** At zero weight the blend is exactly the RGB565 reduction of the entry of
      palette t2. */
  lemma BlendAtZeroWeight(c1: Rgb, c2: Rgb)
    ensures Blend(c1, c2, 0) == Rgb565(c2)
  {
    assert BlendRed(c1, c2, 0) == c2.r / 8 by { ScaledDiv(c2.r, 8); }
    assert BlendGreen(c1, c2, 0) == c2.g / 4 by { ScaledDiv(c2.g, 4); }
    assert BlendBlue(c1, c2, 0) == c2.b / 8 by { ScaledDiv(c2.b, 8); }
    StoredUnchanged(c2.r / 8, c2.g / 4, c2.b / 8);
  }

  /** The weighted average of two 8-bit channels with weights w and 256 - w,
      rounded down. */
  function Avg(a: int, b: int, w: int): int {
    (a * w + b * (256 - w)) / 256
  }

  /** Dividing by a and then by b is dividing by a * b. */
  lemma DivDiv(x: int, a: int, b: int)
    requires 0 <= x && 0 < a && 0 < b
    ensures x / a / b == x / (a * b)
  {
    var q, m := x / a, x % a;
    var q2, m2 := q / b, q % b;
    assert x == a * q + m && q == b * q2 + m2;
    assert x == (a * b) * q2 + (a * m2 + m);
    MulMono(a, a, m2, b - 1);
    assert a * m2 + m < a * b;
    DivModUnique(x, a * b, q2, a * m2 + m);
  }

  /** One channel of the blend is the average of the two channels reduced by
      s: the shift by 11 (or 10) is the division by 256 that averages,
      followed by the 8-bit to 5-bit (or 6-bit) reduction. */
  lemma {:induction false} MixIsReducedAvg(a: byte, b: byte, w: int, s: nat)
    requires 0 <= w <= 256 && 0 < s
    ensures 0 <= Avg(a, b, w) < 256
    ensures Mix(a, b, w, 256 * s) == Avg(a, b, w) / s
  {
    WeightedBounds(a, b, w);
    DivMono(256 * Min(a, b), a * w + b * (256 - w), 256);
    DivMono(a * w + b * (256 - w), 256 * Max(a, b), 256);
    ScaledDiv(Min(a, b), 1);
    ScaledDiv(Max(a, b), 1);
    DivDiv(a * w + b * (256 - w), 256, s);
  }

  /** For every weight 0 <= w <= 256 the value change_color stores is the
      RGB565 reduction of the weighted average of the two palette entries:
      because the weights add up to 256, the shift counts 11, 10 and 11 are
      the averaging followed by the ordinary 5-6-5 reduction. */
  lemma {:induction false} BlendIsRgb565OfAverage(c1: Rgb, c2: Rgb, w: int)
    requires 0 <= w <= 256
    ensures 0 <= Avg(c1.r, c2.r, w) < 256 && 0 <= Avg(c1.g, c2.g, w) < 256 && 0 <= Avg(c1.b, c2.b, w) < 256
    ensures Blend(c1, c2, w) ==
      Rgb565(Rgb(Avg(c1.r, c2.r, w), Avg(c1.g, c2.g, w), Avg(c1.b, c2.b, w)))
  {
    MixIsReducedAvg(c1.r, c2.r, w, 8);
    MixIsReducedAvg(c1.g, c2.g, w, 4);
    MixIsReducedAvg(c1.b, c2.b, w, 8);
    var avg := Rgb(Avg(c1.r, c2.r, w), Avg(c1.g, c2.g, w), Avg(c1.b, c2.b, w));
    assert BlendRed(c1, c2, w) == avg.r / 8;
    assert BlendGreen(c1, c2, w) == avg.g / 4;
    assert BlendBlue(c1, c2, w) == avg.b / 8;
    StoredUnchanged(avg.r / 8, avg.g / 4, avg.b / 8);
  }
}
