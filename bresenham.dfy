// Bresenham's all-octant line algorithm, drawLineBresenham in
// lineAlgorithms/Assignment/bresenhamalgm.cpp.
//
// The walk is specified in step-count space: after nx steps in x and ny steps
// in y the cursor stands at Offset(nx, ny) and the error term is Err(nx, ny).
// Trace lists the points the walk emits from there on; the method below runs
// the source's loops on real coordinates and is proved to emit Trace(0, 0).

module Bresenham {
  import opened Grid

  /** The error term after nx x-steps and ny y-steps: it starts at dx - dy,
      each x-step subtracts dy and each y-step adds dx. */
  function Err(l: Segment, nx: int, ny: int): int
  {
    l.Dx() - l.Dy() - nx * l.Dy() + ny * l.Dx()
  }

  /** The walk steps in x when twice the error term exceeds -dy. */
  predicate StepsX(l: Segment, nx: int, ny: int)
  {
    2 * Err(l, nx, ny) > -(l.Dy() as int)
  }

  /** The walk steps in y when twice the error term is below dx. */
  predicate StepsY(l: Segment, nx: int, ny: int)
  {
    2 * Err(l, nx, ny) < l.Dx()
  }

  function Bit(b: bool): nat
  {
    if b then 1 else 0
  }

  /** Step counts that do not overshoot the second endpoint on either axis. */
  predicate Within(l: Segment, nx: int, ny: int)
  {
    0 <= nx <= l.Dx() && 0 <= ny <= l.Dy()
  }

  /** Away from the second endpoint, one iteration steps on at least one axis
      and never past the endpoint's coordinate on either. */
  lemma StepStaysWithin(l: Segment, nx: int, ny: int)
    requires Within(l, nx, ny) && !(nx == l.Dx() && ny == l.Dy())
    ensures StepsX(l, nx, ny) ==> nx < l.Dx()
    ensures StepsY(l, nx, ny) ==> ny < l.Dy()
    ensures StepsX(l, nx, ny) || StepsY(l, nx, ny)
  {
    if nx == l.Dx() {
      ErrAtXEdge(l.Dx(), l.Dy(), ny);
    }
    if ny == l.Dy() {
      ErrAtYEdge(l.Dx(), l.Dy(), nx);
    }
  }

  /** On the far x edge, below the far y edge, the error term is at most -dy. */
  lemma ErrAtXEdge(dx: int, dy: int, ny: int)
    requires 0 <= dx && 0 <= ny < dy
    ensures dx - dy - dx * dy + ny * dx <= -dy
  {
    var k := dy - ny - 1;
    assert dx * dy == dx * ny + dx + dx * k;
    assert dx * k >= 0;
  }

  /** On the far y edge, before the far x edge, the error term is at least dx. */
  lemma ErrAtYEdge(dx: int, dy: int, nx: int)
    requires 0 <= dy && 0 <= nx < dx
    ensures dx - dy - nx * dy + dy * dx >= dx
  {
    var k := dx - nx - 1;
    assert dy * dx == dy * nx + dy + dy * k;
    assert dy * k >= 0;
  }

  /** An x-step subtracts dy from the error term. */
  lemma ErrAfterX(l: Segment, nx: int, ny: int)
    ensures Err(l, nx + 1, ny) == Err(l, nx, ny) - l.Dy()
  {
  }

  /** A y-step adds dx to the error term. */
  lemma ErrAfterY(l: Segment, nx: int, ny: int)
    ensures Err(l, nx, ny + 1) == Err(l, nx, ny) + l.Dx()
  {
  }

  /** On the second endpoint the error term is back at its initial value
      dx - dy, so resetting it there changes nothing. */
  lemma ErrAtEnd(l: Segment)
    ensures Err(l, l.Dx(), l.Dy()) == l.Dx() - l.Dy()
  {
  }

  /** The points the walk emits when it stands at step counts (nx, ny):
      the current point, then (unless it is the second endpoint) the rest
      of the walk after one iteration. */
  function Trace(l: Segment, nx: int, ny: int): (r: seq<Point>)
    requires Within(l, nx, ny)
    ensures |r| >= 1
    decreases (l.Dx() - nx) + (l.Dy() - ny)
  {
    if nx == l.Dx() && ny == l.Dy() then
      [l.Offset(nx, ny)]
    else
      StepStaysWithin(l, nx, ny);
      [l.Offset(nx, ny)] + Trace(l, nx + Bit(StepsX(l, nx, ny)), ny + Bit(StepsY(l, nx, ny)))
  }

  /** The walk emits the point it stands on first and ends on the second endpoint. */
  lemma {:induction false} TraceEnds(l: Segment, nx: int, ny: int)
    requires Within(l, nx, ny)
    ensures Trace(l, nx, ny)[0] == l.Offset(nx, ny)
    ensures Trace(l, nx, ny)[|Trace(l, nx, ny)| - 1] == l.End()
    decreases (l.Dx() - nx) + (l.Dy() - ny)
  {
    if nx == l.Dx() && ny == l.Dy() {
      OffsetIsEnd(l, nx, ny);
    } else {
      StepStaysWithin(l, nx, ny);
      TraceEnds(l, nx + Bit(StepsX(l, nx, ny)), ny + Bit(StepsY(l, nx, ny)));
    }
  }

  /** One move of the walk: each coordinate changes by 0 or by its step
      sign, and at least one of them changes (an 8-connected neighbour). */
  predicate Move(l: Segment, p: Point, q: Point)
  {
    (q.x == p.x || q.x == p.x + l.Sx()) &&
    (q.y == p.y || q.y == p.y + l.Sy()) &&
    p != q
  }

  lemma {:induction false} TraceMoves(l: Segment, nx: int, ny: int)
    requires Within(l, nx, ny)
    ensures forall i :: 0 <= i < |Trace(l, nx, ny)| - 1 ==>
              Move(l, Trace(l, nx, ny)[i], Trace(l, nx, ny)[i + 1])
    decreases (l.Dx() - nx) + (l.Dy() - ny)
  {
    if !(nx == l.Dx() && ny == l.Dy()) {
      StepStaysWithin(l, nx, ny);
      var mx, my := nx + Bit(StepsX(l, nx, ny)), ny + Bit(StepsY(l, nx, ny));
      TraceMoves(l, mx, my);
      var r, t := Trace(l, nx, ny), Trace(l, mx, my);
      assert r == [l.Offset(nx, ny)] + t;
      forall i | 0 <= i < |r| - 1
        ensures Move(l, r[i], r[i + 1])
      {
        if i > 0 {
          assert r[i] == t[i - 1] && r[i + 1] == t[i];
        }
      }
    }
  }

  lemma {:induction false} TraceInBox(l: Segment, nx: int, ny: int)
    requires Within(l, nx, ny)
    ensures forall i :: 0 <= i < |Trace(l, nx, ny)| ==> l.InBox(Trace(l, nx, ny)[i])
    decreases (l.Dx() - nx) + (l.Dy() - ny)
  {
    OffsetInBox(l, nx, ny);
    if !(nx == l.Dx() && ny == l.Dy()) {
      StepStaysWithin(l, nx, ny);
      var mx, my := nx + Bit(StepsX(l, nx, ny)), ny + Bit(StepsY(l, nx, ny));
      TraceInBox(l, mx, my);
      var r, t := Trace(l, nx, ny), Trace(l, mx, my);
      assert r == [l.Offset(nx, ny)] + t;
      forall i | 0 <= i < |r|
        ensures l.InBox(r[i])
      {
        if i > 0 {
          assert r[i] == t[i - 1];
        }
      }
    }
  }

  /** The cross product of the point at (nx, ny) with the segment, in step
      counts; the error term is it plus dx - dy. */
  function Deviation(l: Segment, nx: int, ny: int): int
  {
    ny * l.Dx() - nx * l.Dy()
  }

  /** Bresenham's accuracy bound: a point within half a pixel of the ideal
      line steps to one that is, too. */
  lemma StepStaysNear(l: Segment, nx: int, ny: int)
    requires Within(l, nx, ny) && !(nx == l.Dx() && ny == l.Dy())
    requires 2 * Abs(Deviation(l, nx, ny)) <= Max(l.Dx(), l.Dy())
    ensures var mx, my := nx + Bit(StepsX(l, nx, ny)), ny + Bit(StepsY(l, nx, ny));
      2 * Abs(Deviation(l, mx, my)) <= Max(l.Dx(), l.Dy())
  {
  }

  /** Every point the walk emits from a point near the line is near the line. */
  lemma {:induction false} TraceNearLine(l: Segment, nx: int, ny: int)
    requires Within(l, nx, ny)
    requires 2 * Abs(Deviation(l, nx, ny)) <= Max(l.Dx(), l.Dy())
    ensures forall i :: 0 <= i < |Trace(l, nx, ny)| ==> NearLine(l, Trace(l, nx, ny)[i])
    decreases (l.Dx() - nx) + (l.Dy() - ny)
  {
    OffsetCross(l, nx, ny);
    if !(nx == l.Dx() && ny == l.Dy()) {
      StepStaysWithin(l, nx, ny);
      StepStaysNear(l, nx, ny);
      var mx, my := nx + Bit(StepsX(l, nx, ny)), ny + Bit(StepsY(l, nx, ny));
      TraceNearLine(l, mx, my);
      var r, t := Trace(l, nx, ny), Trace(l, mx, my);
      assert r == [l.Offset(nx, ny)] + t;
      forall i | 0 <= i < |r|
        ensures NearLine(l, r[i])
      {
        if i > 0 {
          assert r[i] == t[i - 1];
        }
      }
    }
  }

  /** The steps still to take on the major axis, the one with the larger
      delta (x when the deltas are equal). */
  function MajorLeft(l: Segment, nx: int, ny: int): int
  {
    if l.Dy() <= l.Dx() then l.Dx() - nx else l.Dy() - ny
  }

  /** With equal deltas, a point near the line lies on the diagonal. */
  lemma DiagonalWhenEqual(d: int, nx: int, ny: int)
    requires d > 0 && 2 * Abs(ny * d - nx * d) <= d
    ensures nx == ny
  {
    var k := ny - nx;
    assert ny * d - nx * d == k * d;
    if k > 0 {
      MulAtLeast(k, d);
    } else if k < 0 {
      assert (-k) * d == -(k * d);
      MulAtLeast(-k, d);
    }
  }

  lemma MulAtLeast(k: int, d: int)
    requires k >= 1 && d >= 0
    ensures k * d >= d
  {
    assert k * d == (k - 1) * d + d;
    assert (k - 1) * d >= 0;
  }

  /** Near the line, every iteration steps on the major axis. */
  lemma MajorSteps(l: Segment, nx: int, ny: int)
    requires Within(l, nx, ny) && !(nx == l.Dx() && ny == l.Dy())
    requires 2 * Abs(Deviation(l, nx, ny)) <= Max(l.Dx(), l.Dy())
    ensures l.Dy() <= l.Dx() ==> StepsX(l, nx, ny)
    ensures l.Dx() < l.Dy() ==> StepsY(l, nx, ny)
  {
    assert Err(l, nx, ny) == l.Dx() - l.Dy() + Deviation(l, nx, ny);
    if l.Dx() == l.Dy() {
      DiagonalWhenEqual(l.Dx(), nx, ny);
    }
  }

  /** Near the line the walk emits exactly one point per remaining major
      step plus the last one; from the start that is max(dx, dy) + 1. */
  lemma {:induction false} TraceLength(l: Segment, nx: int, ny: int)
    requires Within(l, nx, ny)
    requires 2 * Abs(Deviation(l, nx, ny)) <= Max(l.Dx(), l.Dy())
    ensures |Trace(l, nx, ny)| == MajorLeft(l, nx, ny) + 1
    decreases (l.Dx() - nx) + (l.Dy() - ny)
  {
    if !(nx == l.Dx() && ny == l.Dy()) {
      StepStaysWithin(l, nx, ny);
      StepStaysNear(l, nx, ny);
      MajorSteps(l, nx, ny);
      TraceLength(l, nx + Bit(StepsX(l, nx, ny)), ny + Bit(StepsY(l, nx, ny)));
    }
  }

  /** From the first endpoint the walk emits exactly max(dx, dy) + 1 points. */
  lemma TraceCount(l: Segment)
    ensures |Trace(l, 0, 0)| == Max(l.Dx(), l.Dy()) + 1
  {
    assert Deviation(l, 0, 0) == 0;
    TraceLength(l, 0, 0);
  }

  /** The walk emits a single point exactly when the endpoints coincide. */
  lemma TraceSingle(l: Segment)
    ensures |Trace(l, 0, 0)| == 1 <==> l.Start() == l.End()
  {
    OffsetIsEnd(l, 0, 0);
    TraceCount(l);
  }

  /** The call in display(): (1,5) to (2,8). */
  lemma DisplayExample()
    ensures Trace(Segment(1, 5, 2, 8), 0, 0) == [Point(1, 5), Point(1, 6), Point(2, 7), Point(2, 8)]
  {
    var l := Segment(1, 5, 2, 8);
    assert Err(l, 0, 0) == -2 && !StepsX(l, 0, 0) && StepsY(l, 0, 0);
    StepUnfolds(l, 0, 0);
    assert Err(l, 0, 1) == -1 && StepsX(l, 0, 1) && StepsY(l, 0, 1);
    StepUnfolds(l, 0, 1);
    assert Err(l, 1, 2) == -3 && !StepsX(l, 1, 2) && StepsY(l, 1, 2);
    StepUnfolds(l, 1, 2);
    assert Trace(l, 1, 3) == [Point(2, 8)];
  }

  /** The same line drawn from (2,8) to (1,5). */
  lemma DisplayExampleBackward()
    ensures Trace(Segment(2, 8, 1, 5), 0, 0) == [Point(2, 8), Point(2, 7), Point(1, 6), Point(1, 5)]
  {
    var l := Segment(2, 8, 1, 5);
    assert Err(l, 0, 0) == -2 && !StepsX(l, 0, 0) && StepsY(l, 0, 0);
    StepUnfolds(l, 0, 0);
    assert Err(l, 0, 1) == -1 && StepsX(l, 0, 1) && StepsY(l, 0, 1);
    StepUnfolds(l, 0, 1);
    assert Err(l, 1, 2) == -3 && !StepsX(l, 1, 2) && StepsY(l, 1, 2);
    StepUnfolds(l, 1, 2);
    assert Trace(l, 1, 3) == [Point(1, 5)];
  }

  /** Drawn from either end, that line covers the same pixels; only the order
      differs. */
  lemma DisplayExampleReversed()
    ensures forall p :: p in Trace(Segment(2, 8, 1, 5), 0, 0) <==> p in Trace(Segment(1, 5, 2, 8), 0, 0)
  {
    DisplayExample();
    DisplayExampleBackward();
  }



  /** Away from the second endpoint, one iteration emits the current point
      and continues with the walk from the counts it steps to; the error
      term loses dy with an x-step and gains dx with a y-step. */
  lemma StepUnfolds(l: Segment, nx: int, ny: int)
    requires Within(l, nx, ny) && !(nx == l.Dx() && ny == l.Dy())
    ensures var mx, my := nx + Bit(StepsX(l, nx, ny)), ny + Bit(StepsY(l, nx, ny));
      Within(l, mx, my) &&
      Trace(l, nx, ny) == [l.Offset(nx, ny)] + Trace(l, mx, my) &&
      Err(l, mx, my) == Err(l, nx, ny) - (if StepsX(l, nx, ny) then l.Dy() else 0)
                                       + (if StepsY(l, nx, ny) then l.Dx() else 0) &&
      l.Offset(mx, my).x == l.Offset(nx, ny).x + (if StepsX(l, nx, ny) then l.Sx() else 0) &&
      l.Offset(mx, my).y == l.Offset(nx, ny).y + (if StepsY(l, nx, ny) then l.Sy() else 0)
  {
    StepStaysWithin(l, nx, ny);
    ErrAfterX(l, nx, ny);
    ErrAfterY(l, nx + Bit(StepsX(l, nx, ny)), ny);
  }

  /** The state of one pass after emitting `emitted`: the cursor (x, y) and
      the error term e stand at step counts (kx, ky), and what is still to
      come completes the walk started at (nx, ny). */
  predicate Walked(l: Segment, nx: int, ny: int, kx: int, ky: int, x: int, y: int, e: int, emitted: seq<Point>)
  {
    Within(l, nx, ny) && Within(l, kx, ky) &&
    Point(x, y) == l.Offset(kx, ky) && e == Err(l, kx, ky) &&
    emitted + Trace(l, kx, ky) == Trace(l, nx, ny)
  }

  /** One iteration away from the second endpoint keeps Walked: it emits the
      cursor, steps in x when twice the error term exceeds -dy (the error
      term losing dy) and in y when it is below dx (the error term gaining
      dx), and comes closer to the endpoint. */
  lemma WalkStep(l: Segment, nx: int, ny: int, kx: int, ky: int, x: int, y: int, e: int, emitted: seq<Point>,
                 kx': int, ky': int, x': int, y': int, e': int)
    requires Walked(l, nx, ny, kx, ky, x, y, e, emitted)
    requires !(x == l.x2 && y == l.y2)
    requires kx' == kx + (if 2 * e > -(l.Dy() as int) then 1 else 0)
    requires x' == x + (if 2 * e > -(l.Dy() as int) then l.Sx() else 0)
    requires ky' == ky + (if 2 * e < l.Dx() then 1 else 0)
    requires y' == y + (if 2 * e < l.Dx() then l.Sy() else 0)
    requires e' == e - (if 2 * e > -(l.Dy() as int) then l.Dy() else 0) + (if 2 * e < l.Dx() then l.Dx() else 0)
    ensures Walked(l, nx, ny, kx', ky', x', y', e', emitted + [Point(x, y)])
    ensures (l.Dx() - kx') + (l.Dy() - ky') < (l.Dx() - kx) + (l.Dy() - ky)
  {
    OffsetIsEnd(l, kx, ky);
    StepUnfolds(l, kx, ky);
    assert (emitted + [Point(x, y)]) + Trace(l, kx', ky') == emitted + Trace(l, kx, ky);
  }

  /** On the second endpoint the pass emits the cursor and has emitted the
      whole walk. */
  lemma WalkDone(l: Segment, nx: int, ny: int, kx: int, ky: int, x: int, y: int, e: int, emitted: seq<Point>)
    requires Walked(l, nx, ny, kx, ky, x, y, e, emitted)
    requires x == l.x2 && y == l.y2
    ensures emitted + [Point(x, y)] == Trace(l, nx, ny)
  {
    OffsetIsEnd(l, kx, ky);
  }

  /** One pass of drawLineBresenham, which runs the same loop twice: emit the
      current point, stop on the second endpoint, otherwise step in x, in y
      or in both as the error term decides. The ghost step counts (nx, ny)
      say where on the walk (x, y, err) stands. */
  method Walk(l: Segment, x: int, y: int, err: int, ghost nx: int, ghost ny: int)
    returns (emitted: seq<Point>, xEnd: int, yEnd: int)
    requires Within(l, nx, ny)
    requires Point(x, y) == l.Offset(nx, ny)
    requires err == Err(l, nx, ny)
    ensures emitted == Trace(l, nx, ny)
    ensures Point(xEnd, yEnd) == l.End()
  {
    var dx: int, dy: int, sx, sy := l.Dx(), l.Dy(), l.Sx(), l.Sy();
    var cx, cy, e := x, y, err;
    ghost var kx, ky := nx, ny;
    emitted := [];
    while true
      invariant Walked(l, nx, ny, kx, ky, cx, cy, e, emitted)
      decreases (dx - kx) + (dy - ky)
    {
      if cx == l.x2 && cy == l.y2 {
        WalkDone(l, nx, ny, kx, ky, cx, cy, e, emitted);
        emitted := emitted + [Point(cx, cy)];
        break;
      }
      ghost var kx0, ky0, cx0, cy0, e0, emitted0 := kx, ky, cx, cy, e, emitted;
      emitted := emitted + [Point(cx, cy)];
      var e2 := 2 * e;
      if e2 > -dy {
        e := e - dy;
        cx := cx + sx;
        kx := kx + 1;
      }
      if e2 < dx {
        e := e + dx;
        cy := cy + sy;
        ky := ky + 1;
      }
      WalkStep(l, nx, ny, kx0, ky0, cx0, cy0, e0, emitted0, kx, ky, cx, cy, e);
    }
    xEnd, yEnd := cx, cy;
  }

  /** drawLineBresenham: points are the vertices of the GL_POINTS pass,
      strip those of the GL_LINE_STRIP pass. */
  method DrawLineBresenham(x1: int, y1: int, x2: int, y2: int) returns (points: seq<Point>, strip: seq<Point>)
    ensures points == Trace(Segment(x1, y1, x2, y2), 0, 0)
    ensures points[0] == Point(x1, y1) && points[|points| - 1] == Point(x2, y2)
    ensures |points| == Max(Abs(x2 - x1), Abs(y2 - y1)) + 1
    ensures |points| == 1 <==> x1 == x2 && y1 == y2
    ensures forall i :: 0 <= i < |points| - 1 ==> Move(Segment(x1, y1, x2, y2), points[i], points[i + 1])
    ensures forall i :: 0 <= i < |points| ==> Segment(x1, y1, x2, y2).InBox(points[i])
    ensures forall i :: 0 <= i < |points| ==> NearLine(Segment(x1, y1, x2, y2), points[i])
    ensures strip == [Point(x2, y2)]
  {
    var l := Segment(x1, y1, x2, y2);
    var dx: int := Abs(x2 - x1);
    var dy: int := Abs(y2 - y1);
    var err := dx - dy;

    // The first loop moves the cursor, the parameters x1 and y1 themselves,
    // onto the second endpoint.
    var ax, ay;
    points, ax, ay := Walk(l, x1, y1, err, 0, 0);
    assert points[0] == l.Start() && points[|points| - 1] == l.End() by {
      TraceEnds(l, 0, 0);
    }
    assert |points| == Max(dx, dy) + 1 by {
      TraceCount(l);
    }
    assert |points| == 1 <==> l.Start() == l.End() by {
      TraceSingle(l);
    }
    assert forall i :: 0 <= i < |points| - 1 ==> Move(l, points[i], points[i + 1]) by {
      TraceMoves(l, 0, 0);
    }
    assert forall i :: 0 <= i < |points| ==> l.InBox(points[i]) by {
      TraceInBox(l, 0, 0);
    }
    assert forall i :: 0 <= i < |points| ==> NearLine(l, points[i]) by {
      assert Deviation(l, 0, 0) == 0;
      TraceNearLine(l, 0, 0);
    }

    // The second pass starts from the cursor the first one left on the
    // second endpoint, with the error term back at its initial value.
    var x, y := ax, ay;
    err := dx - dy;
    assert Point(x, y) == l.Offset(dx, dy) && err == Err(l, dx, dy) by {
      OffsetIsEnd(l, dx, dy);
      ErrAtEnd(l);
    }
    strip, x, y := Walk(l, x, y, err, dx, dy);
  }
}
