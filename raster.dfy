/** The value-level meaning of the rasteriser of src/display.c: the saturating
    plots plot1/plot2 (assign_max inside a guard box) and the points the line
    routine visits. The Display module's methods, which write the surface in
    place, are proved equal to these functions. */
module Raster {
  import opened Palette

  /** A point of the index surface, x along a row, y down the rows. */
  datatype Point = Point(x: int, y: int)

  /** A w-by-h index surface, row-major, as a sequence of cells. */
  predicate Shaped(s: seq<byte>, w: int, h: int) {
    0 <= w && 0 <= h && |s| == w * h
  }

  /** The guard box of plot1 and plot2: 0 < x < width - 3 and 0 < y < height - 3. */
  predicate InGuard(w: int, h: int, x: int, y: int) {
    0 < x < w - 3 && 0 < y < h - 3
  }

  /** Cell p of a row-major w-wide surface sits at x + y * w. */
  function Cell(w: int, p: Point): int {
    p.x + p.y * w
  }

  lemma CellInBounds(w: int, h: int, p: Point)
    requires 0 <= p.x < w && 0 <= p.y < h
    ensures 0 <= Cell(w, p) < w * h
  {
    MulMono(p.y + 1, h, w, w);
    assert (p.y + 1) * w == p.y * w + w;
  }

  /** assign_max on one cell: the cell becomes max(old, c). */
  function AssignMax(s: seq<byte>, n: int, c: byte): (r: seq<byte>)
    requires 0 <= n < |s|
  {
    s[n := if s[n] <= c then c else s[n]]
  }

  /** plot1(x, y, c) on the surface s: assign_max on cell (x, y) when the point
      is inside the guard box, nothing otherwise. */
  function Plot1Of(s: seq<byte>, w: int, h: int, p: Point, c: byte): (r: seq<byte>)
    requires Shaped(s, w, h)
    ensures Shaped(r, w, h)
    ensures forall n :: 0 <= n < |s| ==> s[n] <= r[n]
    ensures forall n :: 0 <= n < |s| && r[n] != s[n] ==> InGuard(w, h, p.x, p.y) && n == Cell(w, p) && r[n] == c
    ensures InGuard(w, h, p.x, p.y) ==> 0 <= Cell(w, p) < |s| && r[Cell(w, p)] == Max(s[Cell(w, p)], c)
  {
    if InGuard(w, h, p.x, p.y) then
      CellInBounds(w, h, p);
      AssignMax(s, Cell(w, p), c)
    else s
  }

  /** The four cells of the 2x2 block plot2 anchors at (x, y). */
  predicate InBlock(w: int, p: Point, n: int) {
    n == Cell(w, p) || n == Cell(w, p) + 1 || n == Cell(w, p) + w || n == Cell(w, p) + 1 + w
  }

  /** plot2(x, y, c): assign_max on the 2x2 block (x, y), (x+1, y), (x, y+1),
      (x+1, y+1) when (x, y) is inside the guard box, nothing otherwise. */
  function Plot2Of(s: seq<byte>, w: int, h: int, p: Point, c: byte): (r: seq<byte>)
    requires Shaped(s, w, h)
    ensures Shaped(r, w, h)
  {
    if InGuard(w, h, p.x, p.y) then
      var n := Cell(w, p);
      CellInBounds(w, h, Point(p.x + 1, p.y + 1));
      assert Cell(w, Point(p.x + 1, p.y + 1)) == n + 1 + w;
      var s1 := AssignMax(s, n, c);
      var s2 := AssignMax(s1, n + 1, c);
      var s3 := AssignMax(s2, n + w, c);
      AssignMax(s3, n + 1 + w, c)
    else s
  }

  /** plot2 at an anchor inside the guard box raises each of the four cells of
      its block to max(old, c) and leaves every other cell as it was; at an
      anchor outside the box it changes nothing. */
  lemma Plot2Effect(s: seq<byte>, w: int, h: int, p: Point, c: byte)
    requires Shaped(s, w, h)
    ensures forall m :: 0 <= m < |s| ==>
      Plot2Of(s, w, h, p, c)[m] == (if InGuard(w, h, p.x, p.y) && InBlock(w, p, m) then Max(s[m], c) else s[m])
  {
    if InGuard(w, h, p.x, p.y) {
      var n := Cell(w, p);
      CellInBounds(w, h, Point(p.x + 1, p.y + 1));
      assert Cell(w, Point(p.x + 1, p.y + 1)) == n + 1 + w;
      var s1 := AssignMax(s, n, c);
      var s2 := AssignMax(s1, n + 1, c);
      var s3 := AssignMax(s2, n + w, c);
      var r := AssignMax(s3, n + 1 + w, c);
      assert Plot2Of(s, w, h, p, c) == r;
      forall m | 0 <= m < |s|
        ensures r[m] == if InBlock(w, p, m) then Max(s[m], c) else s[m]
      {
        assert s3[m] == (if m == n || m == n + 1 || m == n + w then Max(s[m], c) else s[m]);
      }
    }
  }

  /** Saturation: plotting c1 and then c2 on the same point leaves the larger
      of the old value, c1 and c2 there, in either order. */
  lemma PlotTwiceIsMax(s: seq<byte>, w: int, h: int, p: Point, c1: byte, c2: byte)
    requires Shaped(s, w, h) && InGuard(w, h, p.x, p.y)
    ensures 0 <= Cell(w, p) < |s|
    ensures Plot1Of(Plot1Of(s, w, h, p, c1), w, h, p, c2)[Cell(w, p)]
         == Max(s[Cell(w, p)], Max(c1, c2))
    ensures Plot1Of(Plot1Of(s, w, h, p, c1), w, h, p, c2)
         == Plot1Of(Plot1Of(s, w, h, p, c2), w, h, p, c1)
  {
    CellInBounds(w, h, p);
  }

  /** The surface after plot1 of every point of ps in turn. */
  function PlotAll(s: seq<byte>, w: int, h: int, ps: seq<Point>, c: byte): (r: seq<byte>)
    requires Shaped(s, w, h)
    ensures Shaped(r, w, h)
    decreases |ps|
  {
    if ps == [] then s
    else Plot1Of(PlotAll(s, w, h, ps[..|ps| - 1], c), w, h, ps[|ps| - 1], c)
  }

  /** The surface after plot2 of every point of ps in turn. */
  function Plot2All(s: seq<byte>, w: int, h: int, ps: seq<Point>, c: byte): (r: seq<byte>)
    requires Shaped(s, w, h)
    ensures Shaped(r, w, h)
    decreases |ps|
  {
    if ps == [] then s
    else Plot2Of(Plot2All(s, w, h, ps[..|ps| - 1], c), w, h, ps[|ps| - 1], c)
  }

  /** Plotting a run of points never lowers a cell, changes only cells of points
      inside the guard box, and leaves at every changed cell the colour c. */
  lemma {:induction false} PlotAllEffect(s: seq<byte>, w: int, h: int, ps: seq<Point>, c: byte)
    requires Shaped(s, w, h)
    ensures forall n :: 0 <= n < |s| ==> s[n] <= PlotAll(s, w, h, ps, c)[n]
    ensures forall n :: 0 <= n < |s| && PlotAll(s, w, h, ps, c)[n] != s[n] ==>
      PlotAll(s, w, h, ps, c)[n] == c &&
      exists k :: 0 <= k < |ps| && InGuard(w, h, ps[k].x, ps[k].y) && n == Cell(w, ps[k])
    decreases |ps|
  {
    if ps != [] {
      var init := ps[..|ps| - 1];
      PlotAllEffect(s, w, h, init, c);
      var r := PlotAll(s, w, h, ps, c);
      forall n | 0 <= n < |s| && r[n] != s[n]
        ensures r[n] == c
        ensures exists k :: 0 <= k < |ps| && InGuard(w, h, ps[k].x, ps[k].y) && n == Cell(w, ps[k])
      {
        var mid := PlotAll(s, w, h, init, c);
        if r[n] == mid[n] {
          var k :| 0 <= k < |init| && InGuard(w, h, init[k].x, init[k].y) && n == Cell(w, init[k]);
          assert ps[k] == init[k];
        } else {
          assert ps[|ps| - 1] == ps[|ps| - 1];
        }
      }
    }
  }

  /** Plotting the first k + 1 points is plotting the first k, then point k. */
  lemma PlotAllPrefix(s: seq<byte>, w: int, h: int, ps: seq<Point>, k: int, c: byte)
    requires Shaped(s, w, h) && 0 <= k < |ps|
    ensures PlotAll(s, w, h, ps[..k + 1], c) == Plot1Of(PlotAll(s, w, h, ps[..k], c), w, h, ps[k], c)
  {
    assert ps[..k + 1][..k] == ps[..k];
  }

  function Abs(a: int): nat { if a < 0 then -a else a }

  /** The points line(x1, y1, x2, y2, c) hands to plot1, in order. With D the
      larger and d the smaller of |x1 - x2| and |y1 - y2|, the endpoints are
      first ordered so that the dominant coordinate increases (a, b = the
      near and far endpoint); point k, for 0 <= k < D, is at dominant
      coordinate a + k and at minor coordinate a + s * floor((k + 1) * d / D),
      s the direction from a to b. The error accumulator is stepped before the
      plot, hence k + 1. Ties (|dy| == |dx|) follow the x axis. */
  function LinePoints(x1: int, y1: int, x2: int, y2: int): (ps: seq<Point>)
    ensures |ps| == Max(Abs(x1 - x2), Abs(y1 - y2))
  {
    var dx, dy := Abs(x1 - x2), Abs(y1 - y2);
    if dy > dx then
      var ax, ay, fx := if y1 > y2 then x2 else x1, if y1 > y2 then y2 else y1, if y1 > y2 then x1 else x2;
      var s := if ax > fx then -1 else 1;
      seq(dy, k requires 0 <= k < dy => Point(ax + s * ((k + 1) * dx / dy), ay + k))
    else
      var ax, ay, fy := if x1 > x2 then x2 else x1, if x1 > x2 then y2 else y1, if x1 > x2 then y1 else y2;
      var s := if ay > fy then -1 else 1;
      seq(dx, k requires 0 <= k < dx => Point(ax + k, ay + s * ((k + 1) * dy / dx)))
  }

  /** The k-th point of a line that follows the y axis, drawn from its lower
      end: y advances by one per point, x by the quotient of the accumulator. */
  lemma SteepPoint(xa: int, ya: int, xb: int, yb: int, k: int)
    requires ya <= yb && Abs(ya - yb) > Abs(xa - xb) && 0 <= k < yb - ya
    ensures |LinePoints(xa, ya, xb, yb)| == yb - ya
    ensures LinePoints(xa, ya, xb, yb)[k] ==
      Point(xa + (if xa > xb then -1 else 1) * ((k + 1) * Abs(xa - xb) / (yb - ya)), ya + k)
  {
  }

  /** The k-th point of a line that follows the x axis, drawn from its left
      end: x advances by one per point, y by the quotient of the accumulator. */
  lemma ShallowPoint(xa: int, ya: int, xb: int, yb: int, k: int)
    requires xa <= xb && Abs(ya - yb) <= Abs(xa - xb) && 0 <= k < xb - xa
    ensures |LinePoints(xa, ya, xb, yb)| == xb - xa
    ensures LinePoints(xa, ya, xb, yb)[k] ==
      Point(xa + k, ya + (if ya > yb then -1 else 1) * ((k + 1) * Abs(ya - yb) / (xb - xa)))
  {
  }

  /** The surface after line(x1, y1, x2, y2, c): plot1 of every LinePoints point
      with the colour cast to a byte. */
  function LineOf(s: seq<byte>, w: int, h: int, x1: int, y1: int, x2: int, y2: int, c: int): (r: seq<byte>)
    requires Shaped(s, w, h)
    ensures Shaped(r, w, h)
  {
    PlotAll(s, w, h, LinePoints(x1, y1, x2, y2), c % 256)
  }

  /** The error accumulator step: going from k to k + 1 steps of d against D
      (0 <= d <= D) adds d to the remainder k*d mod D and moves the quotient
      by one exactly when the remainder reaches D: the step of line's error
      accumulator and of its minor coordinate. */
  lemma {:induction false} AccumulatorStep(k: nat, d: nat, dd: nat)
    requires 0 < dd && d <= dd
    ensures (k + 1) * d / dd == k * d / dd + (if k * d % dd + d >= dd then 1 else 0)
    ensures (k + 1) * d % dd == k * d % dd + d - (if k * d % dd + d >= dd then dd else 0)
  {
    var q, m := k * d / dd, k * d % dd;
    assert (k + 1) * d == dd * q + m + d;
    if m + d >= dd {
      assert (k + 1) * d == dd * (q + 1) + (m + d - dd);
      DivModUnique((k + 1) * d, dd, q + 1, m + d - dd);
    } else {
      DivModUnique((k + 1) * d, dd, q, m + d);
    }
  }

  /** The accumulator update line performs, from cxy == k*d mod D and
      q == k*d div D: add d, and on reaching D subtract it and carry one into
      the minor coordinate. The result is the remainder and quotient for k + 1. */
  lemma CarryStep(k: nat, d: nat, dd: nat, cxy: int, q: int, cxy': int, q': int)
    requires 0 < dd && d <= dd && cxy == k * d % dd && q == k * d / dd
    requires cxy' == (if cxy + d >= dd then cxy + d - dd else cxy + d)
    requires q' == (if cxy + d >= dd then q + 1 else q)
    ensures cxy' == (k + 1) * d % dd && q' == (k + 1) * d / dd
  {
    AccumulatorStep(k, d, dd);
  }

  /** line makes exactly max(|dx|, |dy|) plot1 calls, one per value of the
      dominant coordinate from the smaller endpoint (inclusive) to the larger
      (exclusive); coincident endpoints plot nothing. */
  lemma LineCoversDominantAxis(x1: int, y1: int, x2: int, y2: int)
    ensures |LinePoints(x1, y1, x2, y2)| == Max(Abs(x1 - x2), Abs(y1 - y2))
    ensures x1 == x2 && y1 == y2 ==> LinePoints(x1, y1, x2, y2) == []
    ensures Abs(y1 - y2) > Abs(x1 - x2) ==>
      forall k :: 0 <= k < |LinePoints(x1, y1, x2, y2)| ==> LinePoints(x1, y1, x2, y2)[k].y == Min(y1, y2) + k
    ensures Abs(y1 - y2) <= Abs(x1 - x2) ==>
      forall k :: 0 <= k < |LinePoints(x1, y1, x2, y2)| ==> LinePoints(x1, y1, x2, y2)[k].x == Min(x1, x2) + k
  {
  }

  /** Drawing a line from either end gives the same points, in the same order,
      so the same surface: the endpoints are ordered before stepping. */
  lemma LineSymmetric(x1: int, y1: int, x2: int, y2: int)
    ensures LinePoints(x1, y1, x2, y2) == LinePoints(x2, y2, x1, y1)
  {
  }

  /** Drawing a line from either end leaves the same surface. */
  lemma LineOfSymmetric(s: seq<byte>, w: int, h: int, x1: int, y1: int, x2: int, y2: int, c: int)
    requires Shaped(s, w, h)
    ensures LineOf(s, w, h, x1, y1, x2, y2, c) == LineOf(s, w, h, x2, y2, x1, y1, c)
  {
    LineSymmetric(x1, y1, x2, y2);
  }

  /** One step of the minor coordinate is 0 or 1 unit: floor((k+1)d/D) and
      floor(kd/D) differ by at most one when d <= D. */
  lemma MinorStep(k: nat, d: nat, dd: nat)
    requires 0 < dd && d <= dd
    ensures (k + 1) * d / dd - k * d / dd in {0, 1}
  {
    AccumulatorStep(k, d, dd);
  }

  /** D * d / D == d: after D steps of d against D, the last point's quotient,
      the minor coordinate has moved exactly d. */
  lemma FullRun(d: nat, dd: nat)
    requires 0 < dd
    ensures dd * d / dd == d
  {
    DivModUnique(dd * d, dd, d, 0);
  }

  /** For a line that follows the y axis, x moves by at most one unit from one
      plotted point to the next, always towards the far endpoint (the one with
      the larger y), and the last plotted point has the far endpoint's x. */
  lemma {:induction false} LineMinorAxisSteep(x1: int, y1: int, x2: int, y2: int)
    requires Abs(y1 - y2) > Abs(x1 - x2)
    ensures var ps := LinePoints(x1, y1, x2, y2);
      var toward := if y1 > y2 then Sign(x1 - x2) else Sign(x2 - x1);
      (forall k :: 0 <= k < |ps| - 1 ==> ps[k + 1].x - ps[k].x in {0, toward}) &&
      ps[|ps| - 1].x == (if y1 > y2 then x1 else x2)
  {
    var ps := LinePoints(x1, y1, x2, y2);
    var dx, dy := Abs(x1 - x2), Abs(y1 - y2);
    var toward := if y1 > y2 then Sign(x1 - x2) else Sign(x2 - x1);
    forall k | 0 <= k < |ps| - 1
      ensures ps[k + 1].x - ps[k].x in {0, toward}
    {
      MinorStep(k + 1, dx, dy);
    }
    FullRun(dx, dy);
  }

  /** For a line that follows the x axis, y moves by at most one unit from one
      plotted point to the next, always towards the far endpoint (the one with
      the larger x), and the last plotted point has the far endpoint's y. */
  lemma {:induction false} LineMinorAxisShallow(x1: int, y1: int, x2: int, y2: int)
    requires Abs(y1 - y2) <= Abs(x1 - x2) && x1 != x2
    ensures var ps := LinePoints(x1, y1, x2, y2);
      var toward := if x1 > x2 then Sign(y1 - y2) else Sign(y2 - y1);
      (forall k :: 0 <= k < |ps| - 1 ==> ps[k + 1].y - ps[k].y in {0, toward}) &&
      ps[|ps| - 1].y == (if x1 > x2 then y1 else y2)
  {
    var ps := LinePoints(x1, y1, x2, y2);
    var dx, dy := Abs(x1 - x2), Abs(y1 - y2);
    var toward := if x1 > x2 then Sign(y1 - y2) else Sign(y2 - y1);
    forall k | 0 <= k < |ps| - 1
      ensures ps[k + 1].y - ps[k].y in {0, toward}
    {
      MinorStep(k + 1, dy, dx);
    }
    FullRun(dy, dx);
  }

  function Sign(a: int): int { if a < 0 then -1 else if a == 0 then 0 else 1 }
}
