/** What display_surface of src/display.c puts on the screen: every cell of
    the index surface looked up in current_colors, drawn once at scale 1 and
    as a 2 x 2 block at scale 2. The screen is the SDL pixel buffer seen as
    rows of 16-bit pixels: screen->pixels + i * pitch, advanced by j pixels,
    is pixel j of row i, and pitch is the row length in pixels. */
module Screen {
  import opened Palette
  import opened Raster

  /** Every row of s holds pitch pixels. */
  predicate Rect(s: seq<seq<u16>>, pitch: int) {
    forall r :: 0 <= r < |s| ==> |s[r]| == pitch
  }

  /** The screen (rows x pitch pixels) is large enough for the surface at the
      given scale: one screen row per surface row at scale 1, two at scale 2. */
  predicate Fits(rows: int, pitch: int, width: int, height: int, scale: int) {
    (scale <= 1 ==> height <= rows && width <= pitch) &&
    (scale == 2 ==> 2 * height <= rows && 2 * width <= pitch)
  }

  /** Pixel (r, c) of the screen after display_surface. At scale 1 (or below)
      it shows surface cell (c, r) when that cell exists. At scale 2 the even
      row 2i shows cell (c / 2, i) in columns c < 2 * (width - 1), since the
      source's loop runs j = 1 .. width - 1, and keeps its old value in the
      rest; the odd row 2i + 1 is a copy of the whole even row above it. Any
      other pixel, and every pixel at a scale above 2, keeps its value. */
  function Pixel(s: seq<seq<u16>>, colors: seq<u16>, surf: seq<byte>,
                 width: int, height: int, scale: int, pitch: int, r: int, c: int): u16
    requires |colors| == PaletteSize && Shaped(surf, width, height) && Rect(s, pitch)
    requires 0 <= r < |s| && 0 <= c < pitch
  {
    if scale <= 1 then
      if r < height && c < width then
        CellInBounds(width, height, Point(c, r));
        colors[surf[Cell(width, Point(c, r))]]
      else s[r][c]
    else if scale == 2 then
      if r < 2 * height then
        if c < 2 * (width - 1) then
          CellInBounds(width, height, Point(c / 2, r / 2));
          colors[surf[Cell(width, Point(c / 2, r / 2))]]
        else s[r / 2 * 2][c]
      else s[r][c]
    else s[r][c]
  }

  /** The whole screen after display_surface. */
  function Blit(s: seq<seq<u16>>, colors: seq<u16>, surf: seq<byte>,
                width: int, height: int, scale: int, pitch: int): (b: seq<seq<u16>>)
    requires |colors| == PaletteSize && Shaped(surf, width, height) && Rect(s, pitch) && 0 <= pitch
    ensures |b| == |s| && Rect(b, pitch)
  {
    seq(|s|, r requires 0 <= r < |s| =>
      seq(pitch, c requires 0 <= c < pitch => Pixel(s, colors, surf, width, height, scale, pitch, r, c)))
  }

  /** The pixels of a screen buffer, row by row. */
  ghost function Rows(a: array2<u16>): (s: seq<seq<u16>>)
    reads a
    ensures |s| == a.Length0 && Rect(s, a.Length1)
  {
    seq(a.Length0, r requires 0 <= r < a.Length0 reads a =>
      seq(a.Length1, c requires 0 <= c < a.Length1 reads a => a[r, c]))
  }

  /** Above scale 2 the source's row loop draws nothing: the screen is unchanged. */
  lemma BlitAboveScale2(s: seq<seq<u16>>, colors: seq<u16>, surf: seq<byte>,
                        width: int, height: int, scale: int, pitch: int)
    requires |colors| == PaletteSize && Shaped(surf, width, height) && Rect(s, pitch) && 0 <= pitch
    requires scale > 2
    ensures Blit(s, colors, surf, width, height, scale, pitch) == s
  {
    var b := Blit(s, colors, surf, width, height, scale, pitch);
    forall r | 0 <= r < |s|
      ensures b[r] == s[r]
    {
    }
  }

  /** At scale 1, screen pixel (i, j) for i < height and j < width shows
      surface cell (j, i), i.e. current_colors[surface1[i * width + j]]. */
  lemma SingleCell(s: seq<seq<u16>>, colors: seq<u16>, surf: seq<byte>,
                   width: int, height: int, scale: int, pitch: int, i: int, j: int)
    requires |colors| == PaletteSize && Shaped(surf, width, height) && Rect(s, pitch) && 0 <= pitch
    requires scale <= 1 && Fits(|s|, pitch, width, height, scale)
    requires 0 <= i < height && 0 <= j < width
    ensures 0 <= Cell(width, Point(j, i)) < |surf|
    ensures Blit(s, colors, surf, width, height, scale, pitch)[i][j] == colors[surf[Cell(width, Point(j, i))]]
  {
    CellInBounds(width, height, Point(j, i));
  }

  /** The scale-2 picture is the scale-1 picture magnified: wherever scale 2
      draws, pixel (r, c) equals pixel (r / 2, c / 2) of the scale-1 picture
      of the same surface on any screen large enough for it. */
  lemma DoubledIsMagnified(s1: seq<seq<u16>>, s2: seq<seq<u16>>, colors: seq<u16>, surf: seq<byte>,
                           width: int, height: int, pitch1: int, pitch2: int, r: int, c: int)
    requires |colors| == PaletteSize && Shaped(surf, width, height)
    requires Rect(s1, pitch1) && 0 <= pitch1 && Fits(|s1|, pitch1, width, height, 1)
    requires Rect(s2, pitch2) && 0 <= pitch2 && Fits(|s2|, pitch2, width, height, 2)
    requires 0 <= r < 2 * height && 0 <= c < 2 * (width - 1)
    ensures Blit(s2, colors, surf, width, height, 2, pitch2)[r][c] ==
      Blit(s1, colors, surf, width, height, 1, pitch1)[r / 2][c / 2]
  {
  }

  /** At scale 2, cell (j, i) with j < width - 1 fills the 2 x 2 block of
      pixels (2j, 2i) .. (2j + 1, 2i + 1). */
  lemma DoubledBlock(s: seq<seq<u16>>, colors: seq<u16>, surf: seq<byte>,
                     width: int, height: int, pitch: int, i: int, j: int)
    requires |colors| == PaletteSize && Shaped(surf, width, height) && Rect(s, pitch) && 0 <= pitch
    requires Fits(|s|, pitch, width, height, 2)
    requires 0 <= i < height && 0 <= j < width - 1
    ensures 0 <= Cell(width, Point(j, i)) < |surf|
    ensures var b := Blit(s, colors, surf, width, height, 2, pitch);
      var v := colors[surf[Cell(width, Point(j, i))]];
      b[2 * i][2 * j] == v && b[2 * i][2 * j + 1] == v && b[2 * i + 1][2 * j] == v && b[2 * i + 1][2 * j + 1] == v
  {
    CellInBounds(width, height, Point(j, i));
    assert (2 * i) / 2 == i && (2 * i + 1) / 2 == i && (2 * j) / 2 == j && (2 * j + 1) / 2 == j;
  }

  /** At scale 2 the loop stops at j = width - 1, so the columns from
      2 * (width - 1) on are not drawn: row 2i keeps its old pixels there, and
      row 2i + 1, being a copy of the whole row 2i, receives those old pixels
      of row 2i rather than keeping its own. */
  lemma DoubledLastColumn(s: seq<seq<u16>>, colors: seq<u16>, surf: seq<byte>,
                          width: int, height: int, pitch: int, i: int, c: int)
    requires |colors| == PaletteSize && Shaped(surf, width, height) && Rect(s, pitch) && 0 <= pitch
    requires Fits(|s|, pitch, width, height, 2)
    requires 0 <= i < height && 0 <= c < pitch && 2 * (width - 1) <= c
    ensures var b := Blit(s, colors, surf, width, height, 2, pitch);
      b[2 * i][c] == s[2 * i][c] && b[2 * i + 1][c] == s[2 * i][c]
  {
    assert (2 * i) / 2 * 2 == 2 * i && (2 * i + 1) / 2 * 2 == 2 * i;
  }

  /** At scale 2, screen row 2i + 1 repeats row 2i for every i < height. */
  lemma DoubledRowRepeats(s: seq<seq<u16>>, colors: seq<u16>, surf: seq<byte>,
                          width: int, height: int, pitch: int, i: int)
    requires |colors| == PaletteSize && Shaped(surf, width, height) && Rect(s, pitch) && 0 <= pitch
    requires Fits(|s|, pitch, width, height, 2)
    requires 0 <= i < height
    ensures var b := Blit(s, colors, surf, width, height, 2, pitch);
      b[2 * i + 1] == b[2 * i]
  {
    var b := Blit(s, colors, surf, width, height, 2, pitch);
    assert (2 * i) / 2 == i && (2 * i + 1) / 2 == i;
    assert (2 * i) / 2 * 2 == 2 * i && (2 * i + 1) / 2 * 2 == 2 * i;
    forall c | 0 <= c < pitch
      ensures b[2 * i + 1][c] == b[2 * i][c]
    {
    }
  }

  /** At every scale, the rows below the drawn area are unchanged. */
  lemma BlitBelow(s: seq<seq<u16>>, colors: seq<u16>, surf: seq<byte>,
                  width: int, height: int, scale: int, pitch: int, r: int)
    requires |colors| == PaletteSize && Shaped(surf, width, height) && Rect(s, pitch) && 0 <= pitch
    requires 0 <= r < |s| && (if scale == 2 then 2 * height else height) <= r
    ensures Blit(s, colors, surf, width, height, scale, pitch)[r] == s[r]
  {
    var b := Blit(s, colors, surf, width, height, scale, pitch);
    forall c | 0 <= c < pitch
      ensures b[r][c] == s[r][c]
    {
    }
  }
}
