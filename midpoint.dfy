// The midpoint line algorithm, drawLineMidpoint in
// lineAlgorithms/Assignment/MidPointLineAlgorithm.cpp.
//
// After the steep/shallow swap the walk runs along a major axis with delta
// a and a minor axis with delta b <= a. The reference below says where each
// emitted pixel lies without running the loop: at major step k the minor
// offset is k * b / a rounded to the nearest integer, halves rounded down.
// The method runs the source's decision-variable loop and is proved to emit
// exactly those pixels.

module Midpoint {
  import opened Grid

  /** A steep line is longer along y than along x; the walk then swaps the axes. */
  predicate Steep(l: Segment)
  {
    l.Dy() > l.Dx()
  }

  /** The delta of the major axis, stepped on every iteration. */
  function Major(l: Segment): nat
  {
    if Steep(l) then l.Dy() else l.Dx()
  }

  /** The delta of the minor axis, stepped only when the decision variable is positive. */
  function Minor(l: Segment): nat
  {
    if Steep(l) then l.Dx() else l.Dy()
  }

  lemma MinorAtMostMajor(l: Segment)
    ensures Minor(l) <= Major(l)
    ensures Major(l) == Max(l.Dx(), l.Dy())
  {
  }

  /** The pixel k major steps and m minor steps away from the first endpoint. */
  function Plot(l: Segment, k: int, m: int): Point
  {
    if Steep(l) then l.Offset(m, k) else l.Offset(k, m)
  }

  /** m is k * b / a rounded to the nearest integer, a half rounded down:
      k * b / a - 1/2 <= m < k * b / a + 1/2, multiplied out by 2 * a. */
  predicate RoundsTo(a: int, b: int, k: int, m: int)
  {
    2 * a * m <= 2 * b * k + a - 1 < 2 * a * m + 2 * a
  }

  /** The reference minor offset at major step k. */
  function MinorOffset(a: nat, b: nat, k: nat): (m: nat)
    ensures a > 0 ==> RoundsTo(a, b, k, m)
    ensures a == 0 ==> m == 0
  {
    if a == 0 then 0 else (2 * b * k + a - 1) / (2 * a)
  }

  lemma MulMonotone(a: int, m: int, n: int)
    requires a >= 0 && m <= n
    ensures a * m <= a * n
  {
  }

  /** A rounding is unique: the reference offset is the only one. */
  lemma RoundsToUnique(a: int, b: int, k: int, m: int, n: int)
    requires a > 0 && RoundsTo(a, b, k, m) && RoundsTo(a, b, k, n)
    ensures m == n
  {
    if m < n {
      MulMonotone(a, m + 1, n);
    } else if n < m {
      MulMonotone(a, n + 1, m);
    }
  }

  /** The decision variable before iteration k, when m minor steps were taken. */
  function Decision(a: int, b: int, k: int, m: int): int
  {
    2 * b * (k + 1) - a - 2 * a * m
  }

  /** Every iteration adds twice the minor delta to the decision variable,
      and a minor step also takes away twice the major delta. */
  lemma DecisionAfter(a: int, b: int, k: int, m: int, s: int)
    ensures Decision(a, b, k + 1, m + s) == Decision(a, b, k, m) + 2 * b - 2 * a * s
  {
  }

  /** With m the reference offset at step k, the decision variable is
      positive exactly when the reference offset at step k + 1 is m + 1;
      otherwise it stays m. */
  lemma DecisionPicksOffset(a: nat, b: nat, k: nat)
    requires b <= a
    ensures MinorOffset(a, b, k + 1) ==
              MinorOffset(a, b, k) + (if Decision(a, b, k, MinorOffset(a, b, k)) > 0 then 1 else 0)
  {
    if a > 0 {
      var m := MinorOffset(a, b, k);
      assert 2 * b * (k + 1) == 2 * b * k + 2 * b;
      var n := m + (if Decision(a, b, k, m) > 0 then 1 else 0);
      assert 2 * a * (m + 1) == 2 * a * m + 2 * a;
      assert 2 * a * (m + 2) == 2 * a * m + 4 * a;
      assert RoundsTo(a, b, k + 1, n);
      RoundsToUnique(a, b, k + 1, n, MinorOffset(a, b, k + 1));
    }
  }

  /** The reference starts on the first endpoint's minor coordinate and
      reaches the second endpoint's after a major steps. */
  lemma MinorOffsetEnds(a: nat, b: nat)
    requires b <= a
    ensures MinorOffset(a, b, 0) == 0
    ensures MinorOffset(a, b, a) == b
  {
    if a > 0 {
      RoundsToUnique(a, b, 0, 0, MinorOffset(a, b, 0));
      RoundsToUnique(a, b, a, b, MinorOffset(a, b, a));
    }
  }

  /** The minor steps taken up to major step k never exceed the minor delta. */
  lemma {:induction false} MinorOffsetBounded(a: nat, b: nat, k: nat)
    requires b <= a && k <= a
    ensures MinorOffset(a, b, k) <= b
    decreases a - k
  {
    if k == a {
      MinorOffsetEnds(a, b);
    } else {
      MinorOffsetBounded(a, b, k + 1);
      DecisionPicksOffset(a, b, k);
    }
  }

  /** The reference pixel at major step k. */
  function Pixel(l: Segment, k: nat): Point
  {
    Plot(l, k, MinorOffset(Major(l), Minor(l), k))
  }

  /** The reference pixels at major steps 0 .. n - 1. */
  function Pixels(l: Segment, n: nat): (r: seq<Point>)
    ensures |r| == n
  {
    if n == 0 then [] else Pixels(l, n - 1) + [Pixel(l, n - 1)]
  }

  lemma {:induction false} PixelsAt(l: Segment, n: nat, k: nat)
    requires k < n
    ensures Pixels(l, n)[k] == Pixel(l, k)
  {
    if k < n - 1 {
      PixelsAt(l, n - 1, k);
    }
  }

  /** The pixels the algorithm is meant to emit, one per major step 0 .. a. */
  function Ideal(l: Segment): (r: seq<Point>)
  {
    Pixels(l, Major(l) + 1)
  }

  /** One iteration: the major coordinate moves by its step sign, the minor
      coordinate by its step sign or not at all. */
  predicate MajorStep(l: Segment, p: Point, q: Point)
  {
    if Steep(l) then
      q.y == p.y + l.Sy() && (q.x == p.x || q.x == p.x + l.Sx())
    else
      q.x == p.x + l.Sx() && (q.y == p.y || q.y == p.y + l.Sy())
  }

  lemma IdealEnds(l: Segment)
    ensures |Ideal(l)| == Max(l.Dx(), l.Dy()) + 1
    ensures Ideal(l)[0] == l.Start()
    ensures Ideal(l)[|Ideal(l)| - 1] == l.End()
  {
    MinorAtMostMajor(l);
    MinorOffsetEnds(Major(l), Minor(l));
    OffsetIsEnd(l, l.Dx(), l.Dy());
    PixelsAt(l, Major(l) + 1, 0);
    PixelsAt(l, Major(l) + 1, Major(l));
  }

  /** Coincident endpoints give a single pixel, and only they do. */
  lemma IdealSingle(l: Segment)
    ensures |Ideal(l)| == 1 <==> l.Start() == l.End()
  {
  }

  lemma IdealMoves(l: Segment)
    ensures forall i :: 0 <= i < |Ideal(l)| - 1 ==> MajorStep(l, Ideal(l)[i], Ideal(l)[i + 1])
  {
    MinorAtMostMajor(l);
    forall i | 0 <= i < |Ideal(l)| - 1
      ensures MajorStep(l, Ideal(l)[i], Ideal(l)[i + 1])
    {
      PixelsAt(l, Major(l) + 1, i);
      PixelsAt(l, Major(l) + 1, i + 1);
      DecisionPicksOffset(Major(l), Minor(l), i);
    }
  }

  lemma IdealInBox(l: Segment)
    ensures forall i :: 0 <= i < |Ideal(l)| ==> l.InBox(Ideal(l)[i])
  {
    MinorAtMostMajor(l);
    forall i | 0 <= i < |Ideal(l)|
      ensures l.InBox(Ideal(l)[i])
    {
      PixelsAt(l, Major(l) + 1, i);
      MinorOffsetBounded(Major(l), Minor(l), i);
      var m := MinorOffset(Major(l), Minor(l), i);
      if Steep(l) {
        OffsetInBox(l, m, i);
      } else {
        OffsetInBox(l, i, m);
      }
    }
  }

  /** A rounding of k * b / a is within a half of it: 2 * |a * m - b * k| <= a. */
  lemma RoundsToNear(a: int, b: int, k: int, m: int)
    requires RoundsTo(a, b, k, m)
    ensures 2 * Abs(a * m - b * k) <= a
  {
  }

  /** Rounding to the nearest minor offset keeps each reference pixel within
      half a pixel of the ideal line. */
  lemma PixelNearLine(l: Segment, k: nat)
    ensures NearLine(l, Pixel(l, k))
  {
    MinorAtMostMajor(l);
    var a, b := Major(l), Minor(l);
    var m := MinorOffset(a, b, k);
    var dev := a * m - b * k;
    if a > 0 {
      RoundsToNear(a, b, k, m);
    } else {
      assert dev == 0;
    }
    if Steep(l) {
      OffsetCross(l, m, k);
      assert k * l.Dx() - m * l.Dy() == -dev;
    } else {
      OffsetCross(l, k, m);
      assert m * l.Dx() - k * l.Dy() == dev;
    }
  }

  lemma IdealNearLine(l: Segment)
    ensures forall i :: 0 <= i < |Ideal(l)| ==> NearLine(l, Ideal(l)[i])
  {
    forall i | 0 <= i < |Ideal(l)|
      ensures NearLine(l, Ideal(l)[i])
    {
      PixelsAt(l, Major(l) + 1, i);
      PixelNearLine(l, i);
    }
  }

  /** The call in display(): (0,2) to (-1,4), a steep line. */
  lemma DisplayExample()
    ensures Ideal(Segment(0, 2, -1, 4)) == [Point(0, 2), Point(0, 3), Point(-1, 4)]
  {
  }

  /** The state of the loop before iteration i: the first i reference pixels
      are out, (x, y) is reference pixel i and d is the decision variable
      that goes with it. */
  predicate Emitted(l: Segment, i: nat, x: int, y: int, d: int, points: seq<Point>)
  {
    var m := MinorOffset(Major(l), Minor(l), i);
    points == Pixels(l, i) && Point(x, y) == Plot(l, i, m) && d == Decision(Major(l), Minor(l), i, m)
  }

  /** One iteration of the loop keeps Emitted: it emits (x, y), steps the
      minor axis when d is positive, always steps the major axis, updates d
      to match, and so arrives on reference pixel i + 1. */
  lemma Iteration(l: Segment, i: nat, x: int, y: int, d: int, points: seq<Point>, x': int, y': int, d': int)
    requires Emitted(l, i, x, y, d, points)
    requires d' == d - (if d > 0 then 2 * Major(l) else 0) + 2 * Minor(l)
    requires Steep(l) ==> x' == (if d > 0 then x + l.Sx() else x) && y' == y + l.Sy()
    requires !Steep(l) ==> y' == (if d > 0 then y + l.Sy() else y) && x' == x + l.Sx()
    ensures Emitted(l, i + 1, x', y', d', points + [Point(x, y)])
  {
    MinorAtMostMajor(l);
    var a, b, m := Major(l), Minor(l), MinorOffset(Major(l), Minor(l), i);
    DecisionPicksOffset(a, b, i);
    DecisionAfter(a, b, i, m, if d > 0 then 1 else 0);
  }

  /** drawLineMidpoint: the vertices of its GL_POINTS pass. */
  method DrawLineMidpoint(x1: int, y1: int, x2: int, y2: int) returns (points: seq<Point>)
    ensures points == Ideal(Segment(x1, y1, x2, y2))
    ensures |points| == Max(Abs(x2 - x1), Abs(y2 - y1)) + 1
    ensures points[0] == Point(x1, y1) && points[|points| - 1] == Point(x2, y2)
    ensures |points| == 1 <==> x1 == x2 && y1 == y2
    ensures forall i :: 0 <= i < |points| - 1 ==> MajorStep(Segment(x1, y1, x2, y2), points[i], points[i + 1])
    ensures forall i :: 0 <= i < |points| ==> Segment(x1, y1, x2, y2).InBox(points[i])
    ensures forall i :: 0 <= i < |points| ==> NearLine(Segment(x1, y1, x2, y2), points[i])
  {
    ghost var l := Segment(x1, y1, x2, y2);
    var dx: int := Abs(x2 - x1);
    var dy: int := Abs(y2 - y1);
    var x, y := x1, y1;
    var sx := if x1 < x2 then 1 else -1;
    var sy := if y1 < y2 then 1 else -1;
    var steep := dy > dx;

    if steep {
      dx, dy := dy, dx;
    }
    var d := 2 * dy - dx;
    assert dx == Major(l) && dy == Minor(l);
    assert steep == Steep(l) && sx == l.Sx() && sy == l.Sy();
    MinorAtMostMajor(l);
    MinorOffsetEnds(dx, dy);

    points := [];
    for i := 0 to dx + 1
      invariant Emitted(l, i, x, y, d, points)
    {
      ghost var x0, y0, d0, points0 := x, y, d, points;
      points := points + [Point(x, y)];
      if d > 0 {
        if steep {
          x := x + sx;
        } else {
          y := y + sy;
        }
        d := d - 2 * dx;
      }
      if steep {
        y := y + sy;
      } else {
        x := x + sx;
      }
      d := d + 2 * dy;
      Iteration(l, i, x0, y0, d0, points0, x, y, d);
    }
    IdealEnds(l);
    IdealSingle(l);
    IdealMoves(l);
    IdealInBox(l);
    IdealNearLine(l);
  }
}
