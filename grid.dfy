// The integer pixel grid shared by both line rasterizers: points, the segment
// a call draws, and the quantities both algorithms derive from its endpoints
// before they start walking (absolute deltas and step signs).

module Grid {

  /** A pixel position, as handed to glVertex2i. */
  datatype Point = Point(x: int, y: int)

  function Abs(n: int): nat
  {
    if n < 0 then -n else n
  }

  function Min(a: int, b: int): int
  {
    if a < b then a else b
  }

  function Max(a: int, b: int): int
  {
    if a < b then b else a
  }

  /** The arguments (x1, y1, x2, y2) of one call to a line rasterizer. */
  datatype Segment = Segment(x1: int, y1: int, x2: int, y2: int)
  {
    function Start(): Point { Point(x1, y1) }

    function End(): Point { Point(x2, y2) }

    /** The distance between the endpoints along x. */
    function Dx(): nat { Abs(x2 - x1) }

    /** The distance between the endpoints along y. */
    function Dy(): nat { Abs(y2 - y1) }

    /** The direction of an x-step: +1 towards a larger x2, otherwise -1,
        also when the endpoints share their x coordinate. */
    function Sx(): int { if x1 < x2 then 1 else -1 }

    /** The direction of a y-step, chosen the same way. */
    function Sy(): int { if y1 < y2 then 1 else -1 }

    /** The point reached from Start() by nx steps of Sx() and ny steps of Sy(). */
    function Offset(nx: int, ny: int): Point
    {
      Point(if x1 < x2 then x1 + nx else x1 - nx, if y1 < y2 then y1 + ny else y1 - ny)
    }

    /** p lies in the axis-aligned bounding box of the two endpoints. */
    predicate InBox(p: Point)
    {
      Min(x1, x2) <= p.x <= Max(x1, x2) && Min(y1, y2) <= p.y <= Max(y1, y2)
    }
  }

  /** The cross product of (p - Start()) with (End() - Start()): zero exactly
      on the ideal line, and divided by Max(Dx(), Dy()) the distance from it
      along the minor axis. */
  function Cross(l: Segment, p: Point): int
  {
    (p.y - l.y1) * (l.x2 - l.x1) - (p.x - l.x1) * (l.y2 - l.y1)
  }

  /** p is within half a pixel of the ideal line, measured along the minor axis. */
  predicate NearLine(l: Segment, p: Point)
  {
    2 * Abs(Cross(l, p)) <= Max(l.Dx(), l.Dy())
  }

  /** In step counts the cross product is ny * Dx() - nx * Dy(), up to its sign. */
  lemma OffsetCross(l: Segment, nx: int, ny: int)
    ensures Abs(Cross(l, l.Offset(nx, ny))) == Abs(ny * l.Dx() - nx * l.Dy())
  {
    var p := l.Offset(nx, ny);
    var s := if l.x1 < l.x2 then 1 else -1;
    var t := if l.y1 < l.y2 then 1 else -1;
    assert p.x - l.x1 == s * nx && l.x2 - l.x1 == s * l.Dx();
    assert p.y - l.y1 == t * ny && l.y2 - l.y1 == t * l.Dy();
    assert (t * ny) * (s * l.Dx()) == (s * t) * (ny * l.Dx());
    assert (s * nx) * (t * l.Dy()) == (s * t) * (nx * l.Dy());
    assert Cross(l, p) == (s * t) * (ny * l.Dx() - nx * l.Dy());
  }

  /** Walking Sx() and Sy() reaches the second endpoint after exactly Dx() and Dy() steps. */
  lemma OffsetIsEnd(l: Segment, nx: int, ny: int)
    ensures l.Offset(nx, ny) == l.End() <==> nx == l.Dx() && ny == l.Dy()
  {
  }

  /** Between 0 and Dx() steps in x and 0 and Dy() in y stay inside the bounding box. */
  lemma OffsetInBox(l: Segment, nx: int, ny: int)
    requires 0 <= nx <= l.Dx() && 0 <= ny <= l.Dy()
    ensures l.InBox(l.Offset(nx, ny))
  {
  }
}
