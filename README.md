# Integer line rasterizers

This project models the two integer line-drawing routines of the line-algorithms assignment:

- `drawLineBresenham`, Bresenham's all-octant algorithm. It makes two passes: a `GL_POINTS` pass and a `GL_LINE_STRIP` pass.
- `drawLineMidpoint`, the midpoint algorithm with a steep/shallow axis swap.

Each routine becomes a Dafny method over unbounded integers. The method returns the sequence of vertices it hands to `glVertex2i`, in order. The `std::cout` lines print the same points, so that output is the same sequence.

Files:

- `grid.dfy` holds what both routines share:
  - points and segments;
  - the deltas `dx = abs(x2 - x1)` and `dy`, and the step signs `sx`, `sy`, which are `-1` also when the coordinates are equal;
  - the bounding box;
  - the cross product of a point with the segment, and `NearLine`: the point lies within half a pixel of the ideal line along the minor axis.
- `bresenham.dfy` specifies the walk by step counts:
  - After `nx` x-steps and `ny` y-steps the cursor is at `Offset(nx, ny)` and the error term is `Err(nx, ny) = dx - dy - nx*dy + ny*dx`.
  - `Trace(nx, ny)` is the list of points the walk emits from there on.
  - The method `Walk` runs the source's `while (true)` loop on the real variables and is proved to emit `Trace`.
  - `DrawLineBresenham` runs `Walk` twice. The first pass advances `x1, y1` to the endpoint. The second pass starts from there, because `x1 = x1, y1 = y1` resets nothing, so it emits the single vertex `(x2, y2)`.
- `midpoint.dfy` defines the pixels the routine is meant to emit, in closed form:
  - At major step `k` the minor offset is `k*b/a` rounded to the nearest integer, halves rounded down. Here `a` and `b` are the post-swap deltas.
  - The for loop, with its decision variable `d`, is proved to emit exactly those pixels.

## Model

| member | source | states |
|---|---|---|
| Grid.Segment.Dx | lineAlgorithms/Assignment/bresenhamalgm.cpp:8 | defines `dx` as the absolute x distance between the endpoints (the same at lineAlgorithms/Assignment/MidPointLineAlgorithm.cpp:8) |
| Grid.Segment.Dy | lineAlgorithms/Assignment/bresenhamalgm.cpp:9 | defines `dy` as the absolute y distance between the endpoints (the same at lineAlgorithms/Assignment/MidPointLineAlgorithm.cpp:9) |
| Grid.Segment.Sx | lineAlgorithms/Assignment/bresenhamalgm.cpp:10 | defines the x step direction: +1 when `x1 < x2`, otherwise -1, including equal coordinates (the same at lineAlgorithms/Assignment/MidPointLineAlgorithm.cpp:11) |
| Grid.Segment.Sy | lineAlgorithms/Assignment/bresenhamalgm.cpp:11 | defines the y step direction the same way (the same at lineAlgorithms/Assignment/MidPointLineAlgorithm.cpp:12) |
| Grid.Segment.Offset | lineAlgorithms/Assignment/bresenhamalgm.cpp:29-33 | defines the cursor after `nx` x-steps and `ny` y-steps of the step directions from `(x1, y1)` |
| Grid.OffsetIsEnd | lineAlgorithms/Assignment/bresenhamalgm.cpp:24 | stepping by the signs reaches `(x2, y2)` exactly after `dx` x-steps and `dy` y-steps, and at no other count |
| Grid.OffsetInBox | lineAlgorithms/Assignment/bresenhamalgm.cpp:8-11 | at most `dx` x-steps and `dy` y-steps stay inside the endpoints' bounding box |
| Grid.OffsetCross | lineAlgorithms/Assignment/bresenhamalgm.cpp:8-11 | in step counts, the cross product of a point with the segment is `ny*dx - nx*dy`, up to its sign |
| Bresenham.Err | lineAlgorithms/Assignment/bresenhamalgm.cpp:12-33 | defines the error term after `nx` x-steps and `ny` y-steps: it starts at `dx - dy`, loses `dy` per x-step and gains `dx` per y-step |
| Bresenham.StepsX | lineAlgorithms/Assignment/bresenhamalgm.cpp:27 | defines the test that makes an iteration step in x: twice the error term exceeds `-dy` |
| Bresenham.StepsY | lineAlgorithms/Assignment/bresenhamalgm.cpp:31 | defines the test that makes an iteration step in y: twice the error term is below `dx` |
| Bresenham.StepStaysWithin | lineAlgorithms/Assignment/bresenhamalgm.cpp:24-34 | away from the endpoint, each iteration steps on at least one axis and never past `x2` or `y2`, so the loop terminates |
| Bresenham.ErrAfterX | lineAlgorithms/Assignment/bresenhamalgm.cpp:27-29 | an x-step (`err -= dy`) keeps `err == dx - dy - nx*dy + ny*dx` |
| Bresenham.ErrAfterY | lineAlgorithms/Assignment/bresenhamalgm.cpp:31-33 | a y-step (`err += dx`) keeps the same error-term invariant |
| Bresenham.Trace | lineAlgorithms/Assignment/bresenhamalgm.cpp:20-35 | the walk from any reachable step count emits at least one point |
| Bresenham.TraceEnds | lineAlgorithms/Assignment/bresenhamalgm.cpp:20-24 | the walk's first point is where it starts and its last point is `(x2, y2)` |
| Bresenham.MajorSteps | lineAlgorithms/Assignment/bresenhamalgm.cpp:26-34 | while the cursor is within half a pixel of the line, every iteration steps on the major axis (x when `dx >= dy`, else y) |
| Bresenham.TraceLength | lineAlgorithms/Assignment/bresenhamalgm.cpp:20-34 | from a point near the line the walk emits exactly one point per remaining major-axis step, plus one |
| Bresenham.TraceCount | lineAlgorithms/Assignment/bresenhamalgm.cpp:20-34 | from the first endpoint the walk emits exactly `max(dx, dy) + 1` points |
| Bresenham.TraceMoves | lineAlgorithms/Assignment/bresenhamalgm.cpp:26-34 | consecutive points differ by 0 or the step sign in each coordinate, and in at least one coordinate (8-connected) |
| Bresenham.TraceInBox | lineAlgorithms/Assignment/bresenhamalgm.cpp:20-35 | every emitted point lies in the endpoints' bounding box |
| Bresenham.StepStaysNear | lineAlgorithms/Assignment/bresenhamalgm.cpp:26-34 | the `2*err` tests keep the cursor within half a pixel of the ideal line from one step to the next |
| Bresenham.TraceNearLine | lineAlgorithms/Assignment/bresenhamalgm.cpp:20-35 | every emitted point lies within half a pixel of the ideal line |
| Bresenham.TraceSingle | lineAlgorithms/Assignment/bresenhamalgm.cpp:20-24 | exactly one point is emitted if and only if the endpoints coincide |
| Bresenham.DisplayExample | lineAlgorithms/Assignment/bresenhamalgm.cpp:128 | the call `(1,5)` to `(2,8)` emits exactly `(1,5),(1,6),(2,7),(2,8)` |
| Bresenham.DisplayExampleBackward | lineAlgorithms/Assignment/bresenhamalgm.cpp:128 | the same line drawn from `(2,8)` to `(1,5)` emits exactly `(2,8),(2,7),(1,6),(1,5)` |
| Bresenham.DisplayExampleReversed | lineAlgorithms/Assignment/bresenhamalgm.cpp:128 | drawing that line from `(2,8)` to `(1,5)` emits the same set of pixels |
| Bresenham.StepUnfolds | lineAlgorithms/Assignment/bresenhamalgm.cpp:21-34 | one iteration emits the current point, then moves each coordinate by its sign exactly when its test holds, with the matching error-term update |
| Bresenham.WalkStep | lineAlgorithms/Assignment/bresenhamalgm.cpp:21-34 | one iteration away from the endpoint emits the cursor, moves the cursor, the error term and the step counts to the next state of the walk, and brings the cursor closer to the endpoint |
| Bresenham.WalkDone | lineAlgorithms/Assignment/bresenhamalgm.cpp:21-24 | on the endpoint the loop emits the cursor and stops, having emitted the whole walk |
| Bresenham.ErrAtEnd | lineAlgorithms/Assignment/bresenhamalgm.cpp:40-42 | on the second endpoint the error term equals its initial value `dx - dy`, so the second pass's reset changes nothing |
| Bresenham.Walk | lineAlgorithms/Assignment/bresenhamalgm.cpp:20-35 | the `while (true)` loop, started from any reachable state, emits exactly the walk from there and stops on `(x2, y2)` |
| Bresenham.DrawLineBresenham | lineAlgorithms/Assignment/bresenhamalgm.cpp:7-57 | the first pass emits exactly the walk: it starts at `(x1,y1)` and ends at `(x2,y2)`, has `max(|x2-x1|, |y2-y1|) + 1` points, has one point iff the endpoints coincide, is 8-connected, stays in the box and stays near the line; the second pass emits only `(x2, y2)` |
| Midpoint.Steep | lineAlgorithms/Assignment/MidPointLineAlgorithm.cpp:13 | defines a steep line: its y distance exceeds its x distance |
| Midpoint.Major | lineAlgorithms/Assignment/MidPointLineAlgorithm.cpp:15 | defines the major delta, the `dx` after the swap: the larger of the two distances |
| Midpoint.Minor | lineAlgorithms/Assignment/MidPointLineAlgorithm.cpp:15 | defines the minor delta, the `dy` after the swap: the smaller of the two distances |
| Midpoint.Decision | lineAlgorithms/Assignment/MidPointLineAlgorithm.cpp:16-31 | defines the decision variable before iteration `k` after `m` minor steps, `2*b*(k+1) - a - 2*a*m`; at `k = m = 0` it is the initial `2*dy - dx` |
| Midpoint.MinorAtMostMajor | lineAlgorithms/Assignment/MidPointLineAlgorithm.cpp:13-15 | after the swap the loop's delta is `max(|dx|, |dy|)` and the minor delta is at most it |
| Midpoint.MinorOffset | lineAlgorithms/Assignment/MidPointLineAlgorithm.cpp:21-31 | the reference minor offset at major step `k` is `k*b/a` rounded to the nearest integer, halves down, and 0 when `a == 0` |
| Midpoint.RoundsToUnique | lineAlgorithms/Assignment/MidPointLineAlgorithm.cpp:21-31 | that rounding has exactly one solution |
| Midpoint.DecisionAfter | lineAlgorithms/Assignment/MidPointLineAlgorithm.cpp:27-31 | `d -= 2*dx` on a minor step and `d += 2*dy` keep `d == 2*dy*(i+1) - dx - 2*dx*m` |
| Midpoint.DecisionPicksOffset | lineAlgorithms/Assignment/MidPointLineAlgorithm.cpp:24-28 | `d > 0` holds exactly when the reference offset takes a minor step at the next major step |
| Midpoint.MinorOffsetEnds | lineAlgorithms/Assignment/MidPointLineAlgorithm.cpp:16-21 | the minor offset is 0 at the first pixel and equals the minor delta at the last |
| Midpoint.MinorOffsetBounded | lineAlgorithms/Assignment/MidPointLineAlgorithm.cpp:21-31 | the minor steps taken never exceed the minor delta |
| Midpoint.Pixels | lineAlgorithms/Assignment/MidPointLineAlgorithm.cpp:21-22 | the first `n` reference pixels form a list of length `n` |
| Midpoint.PixelsAt | lineAlgorithms/Assignment/MidPointLineAlgorithm.cpp:21-22 | entry `k` of that list is the pixel at major step `k` |
| Midpoint.IdealEnds | lineAlgorithms/Assignment/MidPointLineAlgorithm.cpp:8-21 | there are `max(|x2-x1|, |y2-y1|) + 1` pixels; the first is `(x1, y1)` and the last is `(x2, y2)` |
| Midpoint.IdealSingle | lineAlgorithms/Assignment/MidPointLineAlgorithm.cpp:13-21 | a single pixel if and only if the endpoints coincide |
| Midpoint.IdealMoves | lineAlgorithms/Assignment/MidPointLineAlgorithm.cpp:24-30 | between consecutive pixels the major coordinate moves by its sign and the minor one by its sign or not at all |
| Midpoint.IdealInBox | lineAlgorithms/Assignment/MidPointLineAlgorithm.cpp:21-31 | every pixel lies in the endpoints' bounding box |
| Midpoint.RoundsToNear | lineAlgorithms/Assignment/MidPointLineAlgorithm.cpp:24-31 | a rounded minor offset `m` satisfies `2*abs(a*m - b*k) <= a` |
| Midpoint.PixelNearLine | lineAlgorithms/Assignment/MidPointLineAlgorithm.cpp:21-31 | each reference pixel lies within half a pixel of the ideal line |
| Midpoint.IdealNearLine | lineAlgorithms/Assignment/MidPointLineAlgorithm.cpp:21-31 | every emitted pixel lies within half a pixel of the ideal line |
| Midpoint.DisplayExample | lineAlgorithms/Assignment/MidPointLineAlgorithm.cpp:72 | the call `(0,2)` to `(-1,4)` emits exactly `(0,2),(0,3),(-1,4)` |
| Midpoint.Iteration | lineAlgorithms/Assignment/MidPointLineAlgorithm.cpp:22-31 | one pass of the loop body moves from reference pixel `i`, with its decision value, to pixel `i + 1` and its decision value, emitting pixel `i` |
| Midpoint.DrawLineMidpoint | lineAlgorithms/Assignment/MidPointLineAlgorithm.cpp:7-35 | the routine emits exactly the reference pixels: `max(|dx|,|dy|) + 1` of them, from `(x1,y1)` to `(x2,y2)`, one point iff the endpoints coincide, major-axis steps, in the box, near the line |

## Left out

- C++ `int` is 32 bits and can overflow in `2 * err`, in `err += dx` and in `2 * dy * ...`. The model uses unbounded integers, so it does not capture behaviour for coordinates near the `int` limits.
- The `GL_LINE_STRIP` pass emits only one vertex, which draws no line segment. The model states which vertex is emitted, not what OpenGL draws from it.
- `glColor3f`, `glPointSize`, `glBegin`/`glEnd` and `glFlush` set colour and point size or flush the frame. They carry no geometry, so they are not modelled.
- The `std::cout` output repeats the `GL_POINTS` vertices. It is not modelled as a separate stream.
- `drawText`, `drawCartesianPlane`, `display`, `init` and `main` are GLUT window, text and axis plumbing. For `display`, only the arguments of its one line-drawing call are used, as the two example lemmas.
- `drawLineDDA`, in lineAlgorithms/Assignment/DDALineAlgorithm.cpp, samples with floating point and `round`. DDALineAlgorithm.cpp is not part of this model.
- lineAlgorithms/SimpleDrawModern2.cpp is shader, buffer and window plumbing. It is not part of this model.
- The ghost step counts `nx, ny` of `Bresenham.Walk` exist only in the model. The source has the same loop twice, at lines 20-35 and 43-57, and the model runs one method for both passes.
