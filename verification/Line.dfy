/** Line drawing: the error term of the Bresenham loop, the number of plotted points and
    their distance from the ideal line. */
module Line {
  import opened Align

  function Abs(x: int): nat { if x < 0 then -x else x }
  function Max(a: nat, b: nat): nat { if a > b then a else b }
  function Sign(from: int, to: int): int { if from < to then 1 else -1 }

  type Point = (int, int)

  /** `p` is the point after `n` steps: exact on the major axis, and at most half a pixel
      from the ideal line on the minor axis. */
  predicate NearLine(x0: int, y0: int, x1: int, y1: int, n: nat, p: Point) {
    var dx, dy := Abs(x1 - x0), Abs(y1 - y0);
    var sx, sy := Sign(x0, x1), Sign(y0, y1);
    if dx >= dy then
      p.0 == x0 + n * sx && -(dx as int) <= 2 * ((p.1 - y0) * sy * dx - n * dy) <= dx
    else
      p.1 == y0 + n * sy && -(dy as int) <= 2 * ((p.0 - x0) * sx * dy - n * dx) <= dy
  }

  // ---- The frame buffer ----

  function Plot(fb: seq<nat>, width: nat, height: nat, p: Point, colour: nat): (r: seq<nat>)
    ensures |r| == |fb|
  {
    if 0 <= p.0 < width && 0 <= p.1 < height && p.1 * width + p.0 < |fb| then fb[p.1 * width + p.0 := colour] else fb
  }

  function PlotAll(fb: seq<nat>, width: nat, height: nat, pts: seq<Point>, colour: nat): (r: seq<nat>)
    ensures |r| == |fb|
  {
    if pts == [] then fb
    else Plot(PlotAll(fb, width, height, pts[..|pts| - 1], colour), width, height, pts[|pts| - 1], colour)
  }

  lemma CellBound(width: nat, height: nat, x: nat, y: nat)
    requires x < width && y < height
    ensures y * width + x < width * height
  {
    MulGap(y, height, width);
    assert height * width == width * height;
  }

  /** Exactly the cells of the points that lie on the screen change. */
  lemma {:induction false} PlotAllExact(fb: seq<nat>, width: nat, height: nat, pts: seq<Point>, colour: nat, x: nat,
                                        y: nat)
    requires |fb| == width * height && x < width && y < height
    ensures y * width + x < |fb|
    ensures PlotAll(fb, width, height, pts, colour)[y * width + x] ==
              if (x, y) in pts then colour else fb[y * width + x]
    decreases |pts|
  {
    CellBound(width, height, x, y);
    hide Plot;
    if pts != [] {
      var n := |pts| - 1;
      PlotAllExact(fb, width, height, pts[..n], colour, x, y);
      assert (x, y) in pts <==> (x, y) in pts[..n] || (x, y) == pts[n];
      PlotExact(PlotAll(fb, width, height, pts[..n], colour), width, height, pts[n], colour, x, y);
    }
  }

  lemma PlotExact(fb: seq<nat>, width: nat, height: nat, p: Point, colour: nat, x: nat, y: nat)
    requires |fb| == width * height && x < width && y < height
    ensures y * width + x < |fb|
    ensures Plot(fb, width, height, p, colour)[y * width + x] == if p == (x, y) then colour else fb[y * width + x]
  {
    CellBound(width, height, x, y);
    if 0 <= p.0 < width && 0 <= p.1 < height {
      CellBound(width, height, p.0, p.1);
      SameCell(width, x, y, p.0, p.1);
    }
  }

  lemma SameCell(width: nat, x: nat, y: nat, x': nat, y': nat)
    requires x < width && x' < width
    ensures y * width + x == y' * width + x' <==> x == x' && y == y'
  {
    MulGap(y, y', width);
    MulGap(y', y, width);
  }

  // ---- The loop ----

  /** Loop state: `X` and `Y` steps taken, and the error term they imply. */
  predicate Tracking(dx: nat, dy: nat, n: nat, X: nat, Y: nat, err: int) {
    && err == dx - dy + Y * dx - X * dy
    && (dx >= dy ==> X == n && -(dx as int) <= 2 * (Y * dx - X * dy) <= dx)
    && (dx < dy ==> Y == n && -(dy as int) <= 2 * (Y * dx - X * dy) <= dy)
    && X <= dx && Y <= dy
  }

  /** The error term alone: the major step is always taken, the minor step when the error
      asks for it, and the result is again within half a pixel. */
  lemma ErrorStep(dx: int, dy: int, d: int)
    requires dx >= 0 && dy >= 0
    ensures var e2 := 2 * (dx - dy + d);
            var d' := d + (if e2 >= -dy then -dy else 0) + (if e2 <= dx then dx else 0);
            && (dx >= dy && -dx <= 2 * d <= dx ==> e2 >= -dy && -dx <= 2 * d' <= dx)
            && (dx < dy && -dy <= 2 * d <= dy ==> e2 <= dx && -dy <= 2 * d' <= dy)
  {}

  /** One iteration steps along the major axis, along the minor axis when needed, and
      keeps the error within half a pixel. */
  lemma TrackStep(dx: nat, dy: nat, n: nat, X: nat, Y: nat, err: int, stepX: bool, stepY: bool)
    requires Tracking(dx, dy, n, X, Y, err) && n < Max(dx, dy)
    requires stepX == (2 * err + dy >= 0) && stepY == (2 * err <= dx)
    ensures Tracking(dx, dy, n + 1, if stepX then X + 1 else X, if stepY then Y + 1 else Y,
                     err - (if stepX then dy else 0) + (if stepY then dx else 0))
  {
    var d := Y * dx - X * dy;
    ErrorStep(dx, dy, d);
    var X', Y' := if stepX then X + 1 else X, if stepY then Y + 1 else Y;
    NextError(dx, dy, X, Y, stepX, stepY);
    if dx >= dy {
      MinorBound(dx, dy, X', Y');
    } else {
      MinorBound(dy, dx, Y', X');
    }
  }

  lemma NextError(dx: nat, dy: nat, X: nat, Y: nat, stepX: bool, stepY: bool)
    ensures (if stepY then Y + 1 else Y) * dx - (if stepX then X + 1 else X) * dy ==
              Y * dx - X * dy - (if stepX then dy else 0) + (if stepY then dx else 0)
  {
    assert (X + 1) * dy == X * dy + dy && (Y + 1) * dx == Y * dx + dx;
  }

  /** Within half a pixel of the line, the minor coordinate stays inside its range. */
  lemma MinorBound(major: nat, minor: nat, a: nat, b: nat)
    requires major >= minor && a <= major && major > 0
    ensures 2 * (b * major - a * minor) <= major ==> b <= minor
    ensures -(major as int) <= 2 * (a * minor - b * major) ==> b <= minor
  {
    MulGap(a, major, minor);
    MulGap(minor, b, major);
    assert a * minor <= major * minor;
    assert major * minor == minor * major;
  }

  lemma TrackEnd(dx: nat, dy: nat, n: nat, X: nat, Y: nat, err: int)
    requires Tracking(dx, dy, n, X, Y, err) && n <= Max(dx, dy)
    ensures X == dx && Y == dy <==> n == Max(dx, dy)
  {
    if n == Max(dx, dy) {
      if dx >= dy { MinorEnd(dx, dy, Y); } else { MinorEnd(dy, dx, X); }
    }
  }

  /** At the end of the major axis, half a pixel leaves only the end of the minor axis. */
  lemma MinorEnd(major: nat, minor: nat, b: nat)
    requires minor <= major && b <= minor
    ensures -(major as int) <= 2 * (b * major - major * minor) ==> b == minor
    ensures 2 * (major * minor - b * major) <= major ==> b == minor
  {
    MulGap(b, minor, major);
    assert minor * major == major * minor;
  }

  /** The doubled error term at a point, from the line's sides and the steps taken so far. */
  function Doubled(x0: int, y0: int, x1: int, y1: int, p: Point): int {
    var dx, dy := Abs(x1 - x0), Abs(y1 - y0);
    2 * (dx - dy + Abs(p.1 - y0) * dx - Abs(p.0 - x0) * dy)
  }

  class Vga {
    const width: nat
    const height: nat
    const fb: array<nat>

    constructor (width: nat, height: nat, fb: array<nat>)
      requires fb.Length == width * height
      ensures this.width == width && this.height == height && this.fb == fb
    {
      this.width, this.height, this.fb := width, height, fb;
    }

    ghost predicate Valid() { fb.Length == width * height }

    method SetPixel(x: int, y: int, colour: nat)
      requires Valid()
      modifies fb
      ensures fb[..] == Plot(old(fb[..]), width, height, (x, y), colour)
    {
      if x < 0 || y < 0 || x >= width || y >= height { return; }
      CellBound(width, height, x, y);
      fb[y * width + x] := colour;
    }

    /** Draws from (x0, y0) to (x1, y1). `pts` are the plotted points in order and
        `doubled` the values of the doubled error term. */
    method DrawLine(x0: nat, y0: nat, x1: nat, y1: nat, colour: nat)
        returns (ghost pts: seq<Point>, ghost doubled: seq<int>)
      requires Valid()
      modifies fb
      ensures |pts| == Max(Abs(x1 - x0), Abs(y1 - y0)) + 1
      ensures pts[0] == (x0, y0) && pts[|pts| - 1] == (x1, y1)
      ensures forall i: nat {:trigger pts[i]} :: i < |pts| ==> NearLine(x0, y0, x1, y1, i, pts[i])
      ensures fb[..] == PlotAll(old(fb[..]), width, height, pts, colour)
      ensures |doubled| == |pts| - 1
      ensures forall i: nat {:trigger doubled[i]} :: i < |doubled| ==> doubled[i] == Doubled(x0, y0, x1, y1, pts[i])
      ensures forall i: nat {:trigger doubled[i]} :: i < |doubled| ==>
                Abs(doubled[i]) <= 3 * Max(Abs(x1 - x0), Abs(y1 - y0))
    {
      hide PlotAll, Plot, Tracking, NearLine, Doubled;
      var dx, dy := Abs(x1 - x0), -(Abs(y1 - y0) as int);
      var sx, sy := Sign(x0, x1), Sign(y0, y1);
      var err, x, y := dx + dy, x0 as int, y0 as int;
      ghost var X: nat, Y: nat, n: nat, was, dyp := 0, 0, 0, fb[..], Abs(y1 - y0);
      pts, doubled := [], [];
      PlotNone(was, width, height, colour);
      TrackStart(dx, dyp);
      while true
        invariant Tracking(dx, dyp, n, X, Y, err) && n <= Max(dx, dyp)
        invariant x == x0 + X * sx && y == y0 + Y * sy
        invariant |pts| == n && fb[..] == PlotAll(was, width, height, pts, colour)
        invariant n > 0 ==> pts[0] == (x0, y0)
        invariant n == 0 ==> X == 0 && Y == 0
        invariant forall i: nat {:trigger pts[i]} :: i < |pts| ==> NearLine(x0, y0, x1, y1, i, pts[i])
        invariant |doubled| == n
        invariant forall i: nat {:trigger doubled[i]} :: i < n ==>
                    doubled[i] == Doubled(x0, y0, x1, y1, pts[i]) && Abs(doubled[i]) <= 3 * Max(dx, dyp)
        decreases Max(dx, dyp) - n
      {
        SetPixel(x, y, colour);
        PlotMore(was, width, height, pts, (x, y), colour);
        NearNow(x0, y0, x1, y1, n, X, Y, err, (x, y));
        pts := pts + [(x, y)];
        EndNow(x0, y0, x1, y1, X, Y, x, y);
        TrackEnd(dx, dyp, n, X, Y, err);
        if x == x1 && y == y1 { break; }
        var e2 := 2 * err;
        ErrBound(dx, dyp, n, X, Y, err);
        DoubledNow(x0, y0, x1, y1, n, X, Y, err, (x, y));
        doubled := doubled + [e2];
        TrackStep(dx, dyp, n, X, Y, err, e2 >= dy, e2 <= dx);
        NextPoint(X, sx);
        NextPoint(Y, sy);
        if e2 >= dy {
          err := err + dy;
          x := x + sx;
          X := X + 1;
        }
        if e2 <= dx {
          err := err + dx;
          y := y + sy;
          Y := Y + 1;
        }
        n := n + 1;
      }
    }
  }

  lemma NextPoint(k: nat, s: int)
    ensures (k + 1) * s == k * s + s
  {}

  lemma TrackStart(dx: nat, dy: nat)
    ensures Tracking(dx, dy, 0, 0, 0, dx - dy)
  {}

  lemma PlotNone(fb: seq<nat>, width: nat, height: nat, colour: nat)
    ensures PlotAll(fb, width, height, [], colour) == fb
  {}

  lemma PlotMore(fb: seq<nat>, width: nat, height: nat, pts: seq<Point>, p: Point, colour: nat)
    ensures PlotAll(fb, width, height, pts + [p], colour) ==
              Plot(PlotAll(fb, width, height, pts, colour), width, height, p, colour)
  {
    assert (pts + [p])[..|pts + [p]| - 1] == pts;
  }

  lemma DoubledNow(x0: int, y0: int, x1: int, y1: int, n: nat, X: nat, Y: nat, err: int, p: Point)
    requires Tracking(Abs(x1 - x0), Abs(y1 - y0), n, X, Y, err)
    requires p == (x0 + X * Sign(x0, x1), y0 + Y * Sign(y0, y1))
    ensures 2 * err == Doubled(x0, y0, x1, y1, p)
  {
    SignedSteps(x0, x1, X);
    SignedSteps(y0, y1, Y);
  }

  lemma SignedSteps(a: int, b: int, k: nat)
    ensures Abs(a + k * Sign(a, b) - a) == k
  {}

  /** The doubled error stays within three times the longer side, so 32-bit arithmetic is
      safe for sides below 2^29. */
  lemma ErrBound(dx: nat, dy: nat, n: nat, X: nat, Y: nat, err: int)
    requires Tracking(dx, dy, n, X, Y, err)
    ensures Abs(2 * err) <= 3 * Max(dx, dy)
  {}

  lemma NearNow(x0: int, y0: int, x1: int, y1: int, n: nat, X: nat, Y: nat, err: int, p: Point)
    requires Tracking(Abs(x1 - x0), Abs(y1 - y0), n, X, Y, err)
    requires p == (x0 + X * Sign(x0, x1), y0 + Y * Sign(y0, y1))
    ensures NearLine(x0, y0, x1, y1, n, p)
  {
    assert (p.0 - x0) * Sign(x0, x1) == X && (p.1 - y0) * Sign(y0, y1) == Y;
  }

  lemma EndNow(x0: int, y0: int, x1: int, y1: int, X: nat, Y: nat, x: int, y: int)
    requires x == x0 + X * Sign(x0, x1) && y == y0 + Y * Sign(y0, y1)
    ensures x == x1 <==> X == Abs(x1 - x0)
    ensures y == y1 <==> Y == Abs(y1 - y0)
  {}
}
