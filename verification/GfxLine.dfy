/** gfx_line: Bresenham's line in all octants, on a clipped surface. */
module GfxLine {
  const MAX_SPAN := 715827883       // the largest dx and dy for which every line stays inside 32 bits

  predicate Fits32(x: int) {
    -0x8000_0000 <= x < 0x8000_0000
  }

  function Abs(x: int): nat {
    if x < 0 then -x else x
  }

  function Max(a: nat, b: nat): nat {
    if a < b then b else a
  }

  // ---- which points -----------------------------------------------------------------------------

  /** a * t / b rounded to the nearest integer, a tie going down. */
  function Nearest(a: nat, t: nat, b: nat): nat {
    if b == 0 then 0 else (2 * a * t + b - 1) / (2 * b)
  }

  /** How many steps in x and y the line has made at its t-th point. */
  function StepsAt(dx: nat, dy: nat, t: nat): (nat, nat) {
    if dx >= dy then (t, Nearest(dy, t, dx)) else (Nearest(dx, t, dy), t)
  }

  type Point = (int, int)

  /** n steps from a in the direction of b. */
  function Toward(a: int, b: int, n: int): int {
    if a < b then a + n else a - n
  }

  function PointAt(x0: int, y0: int, x1: int, y1: int, t: nat): Point {
    var (i, j) := StepsAt(Abs(x1 - x0), Abs(y1 - y0), t);
    (Toward(x0, x1, i), Toward(y0, y1, j))
  }

  /** The points of the line, in the order they are drawn. */
  function Line(x0: int, y0: int, x1: int, y1: int): (r: seq<Point>)
    ensures |r| == Max(Abs(x1 - x0), Abs(y1 - y0)) + 1
    ensures forall t | 0 <= t < |r| :: r[t] == PointAt(x0, y0, x1, y1, t)
  {
    seq(Max(Abs(x1 - x0), Abs(y1 - y0)) + 1, t requires 0 <= t => PointAt(x0, y0, x1, y1, t))
  }

  // ---- what the error term keeps ----------------------------------------------------------------

  /**
   * After i steps in x and j in y the deviation d = dx * j - dy * i is at most half the longer
   * side, and a tie is always resolved towards fewer steps.
   */
  predicate Close(dx: int, dy: int, d: int) {
    if dx > dy then -dx <= 2 * d < dx
    else if dx < dy then -dy < 2 * d <= dy
    else d == 0
  }

  /** x steps at every point of a line that is not steep, y at every point of one that is not flat. */
  predicate Major(dx: nat, dy: nat, i: nat, j: nat, t: nat) {
    (dx >= dy ==> i == t) && (dy >= dx ==> j == t)
  }

  lemma TimesMonotone(d: nat, a: nat, b: nat)
    requires a <= b
    ensures d * a <= d * b
  {
  }

  lemma DivUnique(n: nat, d: nat, q: nat, r: nat)
    requires d > 0 && n == d * q + r && r < d
    ensures n / d == q
  {
    var p := n / d;
    assert n == d * p + n % d;
    if p < q {
      TimesMonotone(d, p + 1, q);
    } else if q < p {
      TimesMonotone(d, q + 1, p);
    }
  }

  lemma OneMore(d: nat, q: nat)
    ensures d * (q + 1) == d * q + d
  {
  }

  lemma Twice(a: nat, b: nat)
    ensures 2 * a * b == 2 * (a * b)
  {
  }

  lemma NearestIs(a: nat, t: nat, b: nat, q: nat)
    requires b > 0 && 2 * (b * q) <= 2 * (a * t) + b - 1 < 2 * (b * q) + 2 * b
    ensures Nearest(a, t, b) == q
  {
    Twice(a, t);
    Twice(b, q);
    var n, d := 2 * a * t + b - 1, 2 * b;
    DivUnique(n, d, q, n - d * q);
  }

  lemma NearestIsClose(a: nat, t: nat, b: nat)
    requires b > 0
    ensures var q := Nearest(a, t, b); 2 * (b * q) <= 2 * (a * t) + b - 1 < 2 * (b * q) + 2 * b
  {
    var n, d := 2 * a * t + b - 1, 2 * b;
    var q := n / d;
    assert n == d * q + n % d;
    Twice(a, t);
    Twice(b, q);
  }

  /** The bound on the deviation leaves exactly one choice for the minor step count. */
  lemma CloseIsNearest(dx: nat, dy: nat, i: nat, j: nat, t: nat)
    requires Close(dx, dy, dx * j - dy * i) && Major(dx, dy, i, j, t) && (dx > 0 || dy > 0)
    ensures (i, j) == StepsAt(dx, dy, t)
  {
    hide Nearest;
    if dx >= dy {
      NearestIs(dy, t, dx, j);
    } else {
      NearestIs(dx, t, dy, i);
    }
  }

  lemma StepsAreClose(dx: nat, dy: nat, t: nat)
    requires dx > 0 || dy > 0
    ensures var (i, j) := StepsAt(dx, dy, t); 2 * Abs(dx * j - dy * i) <= Max(dx, dy)
  {
    hide Nearest;
    if dx >= dy {
      NearestIsClose(dy, t, dx);
    } else {
      NearestIsClose(dx, t, dy);
    }
  }

  lemma StepsDiffer(a: nat, t: nat, b: nat)
    requires a <= b && b > 0
    ensures Nearest(a, t, b) <= Nearest(a, t + 1, b) <= Nearest(a, t, b) + 1
  {
    hide Nearest;
    NearestIsClose(a, t, b);
    NearestIsClose(a, t + 1, b);
    var p, q := Nearest(a, t, b), Nearest(a, t + 1, b);
    OneMore(a, t);
    OneMore(b, q);
    OneMore(b, p);
    OneMore(b, p + 1);
    if q < p {
      TimesMonotone(b, q + 1, p);
    } else if p + 1 < q {
      TimesMonotone(b, p + 2, q);
    }
  }

  lemma LastStep(a: nat, b: nat)
    requires b > 0
    ensures Nearest(a, b, b) == a && Nearest(a, 0, b) == 0
  {
    assert a * b == b * a;
    NearestIs(a, b, b, a);
    NearestIs(a, 0, b, 0);
  }

  /**
   * The shape of the line: max(|dx|, |dy|) + 1 points from the first endpoint to the second, each a
   * king's move from the one before, each within half a step of the exact line.
   */
  lemma LineShape(x0: int, y0: int, x1: int, y1: int)
    ensures var r := Line(x0, y0, x1, y1);
      && r[0] == (x0, y0) && r[|r| - 1] == (x1, y1)
      && (forall t, u | 0 <= t && u == t + 1 && u < |r| ::
            Abs(r[u].0 - r[t].0) <= 1 && Abs(r[u].1 - r[t].1) <= 1 && r[u] != r[t])
      && (forall t | 0 <= t < |r| :: OnLine(x0, y0, x1, y1, r[t]))
  {
    hide Nearest;
    var dx, dy := Abs(x1 - x0), Abs(y1 - y0);
    var r := Line(x0, y0, x1, y1);
    if dx > 0 || dy > 0 {
      if dx >= dy {
        LastStep(dy, dx);
      } else {
        LastStep(dx, dy);
      }
      forall t, u | 0 <= t && u == t + 1 && u < |r|
        ensures Abs(r[u].0 - r[t].0) <= 1 && Abs(r[u].1 - r[t].1) <= 1 && r[u] != r[t]
      {
        if dx >= dy {
          StepsDiffer(dy, t, dx);
        } else {
          StepsDiffer(dx, t, dy);
        }
      }
    } else {
      NoSteps();
    }
    forall t | 0 <= t < |r| ensures OnLine(x0, y0, x1, y1, r[t]) {
      PointOnLine(x0, y0, x1, y1, t);
    }
  }

  lemma NoSteps()
    ensures Nearest(0, 0, 0) == 0
  {
  }

  /** The point p deviates from the exact line by at most half the longer side, scaled by that side. */
  predicate OnLine(x0: int, y0: int, x1: int, y1: int, p: Point) {
    var dx, dy := Abs(x1 - x0), Abs(y1 - y0);
    2 * Abs(dx * Abs(p.1 - y0) - dy * Abs(p.0 - x0)) <= Max(dx, dy)
  }

  lemma PointOnLine(x0: int, y0: int, x1: int, y1: int, t: nat)
    ensures OnLine(x0, y0, x1, y1, PointAt(x0, y0, x1, y1, t))
  {
    hide Nearest;
    var dx, dy := Abs(x1 - x0), Abs(y1 - y0);
    var (i, j) := StepsAt(dx, dy, t);
    var p := PointAt(x0, y0, x1, y1, t);
    assert Abs(p.0 - x0) == i && Abs(p.1 - y0) == j;
    if dx > 0 || dy > 0 {
      StepsAreClose(dx, dy, t);
    }
  }

  /**
   * Each point is the one nearest to the exact line among those as far along the longer side, and of two
   * equally near ones the one with fewer steps along the shorter side.
   */
  lemma LineNearest(x0: int, y0: int, x1: int, y1: int, dx: nat, dy: nat, t: nat, i: nat, j: nat)
    requires dx == Abs(x1 - x0) && dy == Abs(y1 - y0) && (dx > 0 || dy > 0) && t < |Line(x0, y0, x1, y1)|
    requires i == Abs(Line(x0, y0, x1, y1)[t].0 - x0) && j == Abs(Line(x0, y0, x1, y1)[t].1 - y0)
    ensures dx >= dy ==> i == t && 2 * (dy * i) <= 2 * (dx * j) + dx < 2 * (dy * i) + 2 * dx
    ensures dx < dy ==> j == t && 2 * (dy * i) < 2 * (dx * j) + dy <= 2 * (dy * i) + 2 * dy
  {
    hide Nearest;
    assert Line(x0, y0, x1, y1)[t] == PointAt(x0, y0, x1, y1, t) && (i, j) == StepsAt(dx, dy, t);
    if dx >= dy {
      NearestIsClose(dy, t, dx);
    } else {
      NearestIsClose(dx, t, dy);
    }
  }

  // ---- the drawing loop -----------------------------------------------------------------------------

  /** A drawable surface: row-major pixels, pitch of them to a row. */
  class Surface {
    const pixels: array<nat>
    const width: nat
    const height: nat
    const pitch: nat

    ghost predicate Valid() {
      width <= pitch && height * pitch <= pixels.Length && width < 0x8000_0000 && height < 0x8000_0000
    }

    constructor (pixels: array<nat>, width: nat, height: nat, pitch: nat)
      requires width <= pitch && height * pitch <= pixels.Length && width < 0x8000_0000 && height < 0x8000_0000
      ensures Valid() && this.pixels == pixels && this.width == width && this.height == height && this.pitch == pitch
    {
      this.pixels, this.width, this.height, this.pitch := pixels, width, height, pitch;
    }

    /** The point that pixel k shows, if it is on the surface at all. */
    ghost predicate Shows(k: nat, p: Point) {
      0 <= p.0 < width && 0 <= p.1 < height && k == p.1 * pitch + p.0
    }

    lemma InsideArray(p: Point)
      requires Valid() && 0 <= p.0 < width && 0 <= p.1 < height
      ensures p.1 * pitch + p.0 < pixels.Length && 0 <= p.1 * pitch
    {
      TimesMonotone(pitch, p.1 + 1, height);
    }

    /** Two points on the surface are never the same pixel. */
    lemma OnePixelEach(k: nat, p: Point, q: Point)
      requires Valid() && Shows(k, p) && Shows(k, q)
      ensures p == q
    {
      OneMore(pitch, p.1);
      OneMore(pitch, q.1);
      if p.1 < q.1 {
        TimesMonotone(pitch, p.1 + 1, q.1);
      } else if q.1 < p.1 {
        TimesMonotone(pitch, q.1 + 1, p.1);
      }
    }

    /** gfx_putpixel: exactly the pixel showing (x, y) changes, and only if there is one. */
    method PutPixel(x: int, y: int, color: nat)
      requires Valid()
      modifies pixels
      ensures forall k | 0 <= k < pixels.Length :: pixels[k] == if Shows(k, (x, y)) then color else old(pixels[k])
      ensures if 0 <= x < width && 0 <= y < height
        then 0 <= y * pitch + x < pixels.Length && pixels[..] == old(pixels[..])[y * pitch + x := color]
        else pixels[..] == old(pixels[..])
    {
      if x < 0 || y < 0 || x >= width || y >= height {
        return;
      }
      InsideArray((x, y));
      pixels[y * pitch + x] := color;
    }

    /**
     * gfx_line: draws the points of Line in order, so that exactly the pixels showing one of them
     * change; neither the error term, nor twice it, nor what its updates leave goes beyond 32 bits.
     */
    method DrawLine(startX: int, startY: int, x1: int, y1: int, color: nat) returns (ghost drawn: seq<Point>)
      requires Valid() && Abs(x1 - startX) <= MAX_SPAN && Abs(y1 - startY) <= MAX_SPAN
      modifies pixels
      ensures drawn == Line(startX, startY, x1, y1)
      ensures forall k | 0 <= k < pixels.Length ::
        pixels[k] == if exists t | 0 <= t < |drawn| :: Shows(k, drawn[t]) then color else old(pixels[k])
    {
      hide Nearest, Drawn, ShownBy, PointAt, Line, Shows, Fits32, At;
      var x0, y0 := startX, startY;
      var dx := x1 - x0;
      if dx < 0 {
        dx := -dx;
      }
      var dy := y1 - y0;
      if dy < 0 {
        dy := -dy;
      }
      var sx := if x0 < x1 then 1 else -1;
      var sy := if y0 < y1 then 1 else -1;
      var err := dx - dy;
      ghost var was := pixels[..];
      ghost var i, j: nat := 0, 0;
      drawn := [];
      NothingDrawn(was, color);
      AtStart(startX, startY, x1, y1);
      while true
        invariant dx == Abs(x1 - startX) && dy == Abs(y1 - startY)
        invariant |drawn| <= Max(dx, dy) && At(startX, startY, x1, y1, x0, y0, err, i, j, |drawn|)
        invariant forall t | 0 <= t < |drawn| :: drawn[t] == PointAt(startX, startY, x1, y1, t)
        invariant Drawn(was, drawn, color)
        decreases Max(dx, dy) - |drawn|
      {
        hide Abs, Max;
        ThisPoint(startX, startY, x1, y1, x0, y0, err, i, j, |drawn|);
        PlotNext(was, drawn, x0, y0, color);
        drawn := drawn + [(x0, y0)];
        if x0 == x1 && y0 == y1 {
          break;
        }
        NotYetThere(startX, startY, x1, y1, x0, y0, err, i, j, |drawn| - 1);
        Turn(startX, startY, x1, y1, x0, y0, err, i, j, |drawn| - 1);
        var e2 := 2 * err;
        assert Fits32(err) && Fits32(e2) && Fits32(-dy);
        if e2 > -dy {
          err, x0, i := err - dy, x0 + sx, i + 1;
        }
        assert Fits32(err);
        if e2 < dx {
          err, y0, j := err + dx, y0 + sy, j + 1;
        }
        assert Fits32(err);
      }
      IsLine(startX, startY, x1, y1, drawn);
      AllDrawn(was, drawn, color);
    }

    /** The pixels showing a point of `drawn` have the colour, the others are as in `was`. */
    ghost predicate Drawn(was: seq<nat>, drawn: seq<Point>, color: nat)
      reads pixels
    {
      |was| == pixels.Length && forall k | 0 <= k < pixels.Length ::
        pixels[k] == if ShownBy(k, drawn) then color else was[k]
    }

    ghost predicate ShownBy(k: nat, drawn: seq<Point>) {
      exists t | 0 <= t < |drawn| :: Shows(k, drawn[t])
    }

    lemma NothingDrawn(was: seq<nat>, color: nat)
      requires was == pixels[..]
      ensures Drawn(was, [], color)
    {
    }

    lemma AllDrawn(was: seq<nat>, drawn: seq<Point>, color: nat)
      requires Drawn(was, drawn, color)
      ensures forall k | 0 <= k < pixels.Length ::
        pixels[k] == if exists t | 0 <= t < |drawn| :: Shows(k, drawn[t]) then color else was[k]
    {
      assert forall k | 0 <= k < pixels.Length :: ShownBy(k, drawn) <==> exists t | 0 <= t < |drawn| :: Shows(k, drawn[t]);
    }

    method PlotNext(ghost was: seq<nat>, ghost drawn: seq<Point>, x: int, y: int, color: nat)
      requires Valid() && Drawn(was, drawn, color)
      modifies pixels
      ensures Drawn(was, drawn + [(x, y)], color)
    {
      hide Shows;
      PutPixel(x, y, color);
      ghost var more := drawn + [(x, y)];
      forall k | 0 <= k < pixels.Length ensures ShownBy(k, more) <==> ShownBy(k, drawn) || Shows(k, (x, y)) {
        assert more[|drawn|] == (x, y);
        assert forall t | 0 <= t < |drawn| :: more[t] == drawn[t];
      }
    }
  }

  /** Where the loop stands when it has drawn t points: i steps in x, j in y, deviation d. */
  predicate Reached(dx: nat, dy: nat, i: nat, j: nat, t: nat, d: int) {
    d == dx * j - dy * i && Close(dx, dy, d) && Major(dx, dy, i, j, t)
  }

  /** A line along an axis never deviates. */
  lemma AlongAxis(dx: nat, dy: nat, i: nat, j: nat, t: nat, d: int)
    requires Reached(dx, dy, i, j, t, d)
    ensures Close(dx, dy, d) && (dx == 0 || dy == 0 ==> d == 0)
  {
    if dy == 0 && j > 0 {
      TimesMonotone(dx, 1, j);
    }
    if dx == 0 && i > 0 {
      TimesMonotone(dy, 1, i);
    }
  }

  /** Twice the error term fits wherever the loop stands, and so does the term after either update. */
  lemma ErrorFits(dx: int, dy: int, d: int)
    requires dx >= 0 && dy >= 0 && Close(dx, dy, d) && (dx == 0 || dy == 0 ==> d == 0) && dx <= MAX_SPAN && dy <= MAX_SPAN
    ensures var err := d + dx - dy;
      Fits32(-dy) && Fits32(err) && Fits32(2 * err) && Fits32(err - dy) && Fits32(err + dx) && Fits32(err - dy + dx)
  {
  }

  /** No larger bound will do: one step further out, twice the error term reaches 2^31. */
  lemma SpanIsLargest()
    ensures var dx, i := MAX_SPAN + 1, MAX_SPAN / 2 + 2;
      && i < Max(dx, 1) && Reached(dx, 1, i, 1, i, dx - i)
      && !Fits32(2 * (dx - i + dx - 1))
  {
  }

  /** The loop stands at (x0, y0), its t-th point, after i steps in x and j in y. */
  predicate At(startX: int, startY: int, x1: int, y1: int, x0: int, y0: int, err: int, i: nat, j: nat, t: nat) {
    var dx, dy := Abs(x1 - startX), Abs(y1 - startY);
    x0 == Toward(startX, x1, i) && y0 == Toward(startY, y1, j) && Reached(dx, dy, i, j, t, err - dx + dy)
  }

  lemma AtStart(x0: int, y0: int, x1: int, y1: int)
    ensures At(x0, y0, x1, y1, x0, y0, Abs(x1 - x0) - Abs(y1 - y0), 0, 0, 0)
  {
  }

  /** The loop plots the points of the line. */
  lemma ThisPoint(startX: int, startY: int, x1: int, y1: int, x0: int, y0: int, err: int, i: nat, j: nat, t: nat)
    requires At(startX, startY, x1, y1, x0, y0, err, i, j, t) && t <= Max(Abs(x1 - startX), Abs(y1 - startY))
    ensures PointAt(startX, startY, x1, y1, t) == (x0, y0)
  {
    hide Nearest;
    var dx, dy := Abs(x1 - startX), Abs(y1 - startY);
    if dx > 0 || dy > 0 {
      CloseIsNearest(dx, dy, i, j, t);
    } else {
      NoSteps();
    }
  }

  /** Short of the endpoint, the longer side is not used up. */
  lemma NotYetThere(startX: int, startY: int, x1: int, y1: int, x0: int, y0: int, err: int, i: nat, j: nat, t: nat)
    requires At(startX, startY, x1, y1, x0, y0, err, i, j, t) && t <= Max(Abs(x1 - startX), Abs(y1 - startY))
    requires x0 != x1 || y0 != y1
    ensures t < Max(Abs(x1 - startX), Abs(y1 - startY))
  {
    hide Nearest;
    var dx, dy := Abs(x1 - startX), Abs(y1 - startY);
    if t == Max(dx, dy) && (dx > 0 || dy > 0) {
      CloseIsNearest(dx, dy, i, j, t);
      if dx >= dy {
        LastStep(dy, dx);
      } else {
        LastStep(dx, dy);
      }
    }
  }

  /** One round of the loop keeps the deviation within bounds. */
  lemma CloseStep(dx: nat, dy: nat, i: nat, j: nat, t: nat, d: int)
    requires Reached(dx, dy, i, j, t, d) && (dx > 0 || dy > 0)
    ensures var err := dx - dy + d;
      var x, y := 2 * err + dy > 0, 2 * err < dx;
      && Reached(dx, dy, if x then i + 1 else i, if y then j + 1 else j, t + 1, d - (if x then dy else 0) + if y then dx else 0)
      && -3 * Max(dx, dy) <= 2 * err <= 3 * Max(dx, dy)
  {
    OneMore(dx, j);
    OneMore(dy, i);
  }

  /** The updates of one round, and the 32 bits they stay in. */
  lemma Turn(startX: int, startY: int, x1: int, y1: int, x0: int, y0: int, err: int, i: nat, j: nat, t: nat)
    requires At(startX, startY, x1, y1, x0, y0, err, i, j, t) && t < Max(Abs(x1 - startX), Abs(y1 - startY))
    requires Abs(x1 - startX) <= MAX_SPAN && Abs(y1 - startY) <= MAX_SPAN
    ensures var dx: int, dy: int, sx, sy := Abs(x1 - startX), Abs(y1 - startY), if startX < x1 then 1 else -1, if startY < y1 then 1 else -1;
      var x, y := 2 * err > -dy, 2 * err < dx;
      && At(startX, startY, x1, y1, if x then x0 + sx else x0, if y then y0 + sy else y0,
            err - (if x then dy else 0) + (if y then dx else 0), if x then i + 1 else i, if y then j + 1 else j, t + 1)
      && Fits32(-dy) && Fits32(err) && Fits32(2 * err) && Fits32(err - dy) && Fits32(err + dx) && Fits32(err - dy + dx)
  {
    hide Reached, Close, Fits32;
    var dx, dy := Abs(x1 - startX), Abs(y1 - startY);
    CloseStep(dx, dy, i, j, t, err - dx + dy);
    AlongAxis(dx, dy, i, j, t, err - dx + dy);
    ErrorFits(dx, dy, err - dx + dy);
  }

  /** Drawn up to the endpoint, the points are the whole line. */
  lemma IsLine(x0: int, y0: int, x1: int, y1: int, drawn: seq<Point>)
    requires drawn != [] && |drawn| <= Max(Abs(x1 - x0), Abs(y1 - y0)) + 1
    requires forall t | 0 <= t < |drawn| :: drawn[t] == PointAt(x0, y0, x1, y1, t)
    requires drawn[|drawn| - 1] == (x1, y1)
    ensures drawn == Line(x0, y0, x1, y1)
  {
    hide Nearest;
  }
}
