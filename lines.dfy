/** The Bresenham-style line walk of `Framebuffer::line`, as a specification
    function over its loop state, with the facts the walk guarantees:
    it starts at the first endpoint, ends at the second, moves every
    coordinate by at most one grid step towards the target, and stops. */
module Lines {
  import opened Basics

  /** The step direction along one axis: +1 towards a larger target, -1 otherwise. */
  function Dir(a: int, b: int): int
  {
    if a < b then 1 else -1
  }

  /** `v` lies between `a` and `b`, both included, whichever is larger. */
  predicate Between(a: int, v: int, b: int)
  {
    a <= v <= b || b <= v <= a
  }

  /** The Manhattan distance still to go from `p` to `to`. */
  function Dist(to: Point, p: Point): nat
  {
    Abs(to.x - p.x) + Abs(to.y - p.y)
  }

  /** The state reached by the loop of `line` when walking from `from` to `to`:
      the current point lies in the box spanned by the endpoints, and the error
      term records the `i` steps taken along x and the `j` steps taken along y. */
  predicate WalkInv(from: Point, to: Point, cur: Point, err: int)
  {
    var dx: int, dy: int := Abs(to.x - from.x), Abs(to.y - from.y);
    var i: int, j: int := Abs(cur.x - from.x), Abs(cur.y - from.y);
    Between(from.x, cur.x, to.x) && Between(from.y, cur.y, to.y) &&
    err == dx - dy + j * dx - i * dy
  }

  /** One iteration of the loop after the current point is emitted:
      `e2 = 2 * err`; step along x when `e2 > -dy`, along y when `e2 < dx`. */
  function Step(from: Point, to: Point, cur: Point, err: int): (Point, int)
  {
    var dx: int, dy: int := Abs(to.x - from.x), Abs(to.y - from.y);
    var e2 := 2 * err;
    var stepX, stepY := e2 > -dy, e2 < dx;
    var x := if stepX then cur.x + Dir(from.x, to.x) else cur.x;
    var y := if stepY then cur.y + Dir(from.y, to.y) else cur.y;
    var err' := err - (if stepX then dy else 0) + (if stepY then dx else 0);
    (Point(x, y), err')
  }

  /** `b` follows `a` in a walk towards `to`: a different point, at most one
      step away on each axis, and no farther from `to` on either axis. */
  predicate StepsToward(to: Point, a: Point, b: Point)
  {
    a != b && Abs(b.x - a.x) <= 1 && Abs(b.y - a.y) <= 1 &&
    Abs(to.x - b.x) <= Abs(to.x - a.x) && Abs(to.y - b.y) <= Abs(to.y - a.y)
  }

  lemma MulNonPositive(a: int, b: int)
    requires a >= 0 && b <= 0
    ensures a * b <= 0
  {
  }

  /** The arithmetic of one step, in terms of the step counts: with `i` of `dx`
      steps taken along x and `j` of `dy` along y (not both complete), the loop
      steps along at least one axis and never along an axis already complete,
      and the error term afterwards matches the new step counts. */
  lemma ErrorTermStep(dx: int, dy: int, i: int, j: int, err: int)
    requires 0 <= i <= dx && 0 <= j <= dy && (i < dx || j < dy)
    requires err == dx - dy + j * dx - i * dy
    ensures 2 * err > -dy || 2 * err < dx
    ensures 2 * err > -dy ==> i < dx
    ensures 2 * err < dx ==> j < dy
    ensures var stepX, stepY := 2 * err > -dy, 2 * err < dx;
      err - (if stepX then dy else 0) + (if stepY then dx else 0)
        == dx - dy + (if stepY then j + 1 else j) * dx - (if stepX then i + 1 else i) * dy
  {
    if i == dx {
      // x is complete: the error term is at most -dy, so x does not step
      MulNonPositive(dx, 1 + j - dy);
      assert err == dx * (1 + j - dy) - dy;
    }
    if j == dy {
      // y is complete: the error term is at least dx, so y does not step
      MulNonPositive(dy, 1 + i - dx);
      assert err == dx - dy * (1 + i - dx);
    }
    assert (j + 1) * dx == j * dx + dx;
    assert (i + 1) * dy == i * dy + dy;
  }

  /** One step of the loop keeps its invariant, never overshoots the target on
      either axis and strictly shortens the remaining distance. */
  lemma StepLemma(from: Point, to: Point, cur: Point, err: int)
    requires WalkInv(from, to, cur, err) && cur != to
    ensures WalkInv(from, to, Step(from, to, cur, err).0, Step(from, to, cur, err).1)
    ensures StepsToward(to, cur, Step(from, to, cur, err).0)
    ensures Dist(to, Step(from, to, cur, err).0) < Dist(to, cur)
  {
    var dx: int, dy: int := Abs(to.x - from.x), Abs(to.y - from.y);
    var i: int, j: int := Abs(cur.x - from.x), Abs(cur.y - from.y);
    ErrorTermStep(dx, dy, i, j, err);
  }

  /** The points emitted by the loop of `line` from the state (`cur`, `err`) on. */
  function Walk(from: Point, to: Point, cur: Point, err: int): seq<Point>
    requires WalkInv(from, to, cur, err)
    decreases Dist(to, cur)
  {
    if cur == to then [cur]
    else
      StepLemma(from, to, cur, err);
      var s := Step(from, to, cur, err);
      [cur] + Walk(from, to, s.0, s.1)
  }

  /** The error term `delta_x - delta_y` the loop of `line` starts with. */
  function InitialErr(p1: Point, p2: Point): int
  {
    Abs(p2.x - p1.x) - Abs(p2.y - p1.y)
  }

  lemma InitialState(p1: Point, p2: Point)
    ensures WalkInv(p1, p2, p1, InitialErr(p1, p2))
  {
  }

  /** The points `line(p1, p2)` emits, in order. */
  function LinePoints(p1: Point, p2: Point): seq<Point>
  {
    InitialState(p1, p2);
    Walk(p1, p2, p1, InitialErr(p1, p2))
  }

  lemma {:induction false} WalkEnds(from: Point, to: Point, cur: Point, err: int)
    requires WalkInv(from, to, cur, err)
    ensures var w := Walk(from, to, cur, err); |w| >= 1 && w[0] == cur && w[|w| - 1] == to
    decreases Dist(to, cur)
  {
    if cur != to {
      StepLemma(from, to, cur, err);
      var s := Step(from, to, cur, err);
      WalkEnds(from, to, s.0, s.1);
    }
  }

  lemma {:induction false} WalkSteps(from: Point, to: Point, cur: Point, err: int)
    requires WalkInv(from, to, cur, err)
    ensures var w := Walk(from, to, cur, err);
      forall k :: 0 <= k < |w| - 1 ==> StepsToward(to, w[k], w[k + 1])
    decreases Dist(to, cur)
  {
    if cur != to {
      StepLemma(from, to, cur, err);
      var s := Step(from, to, cur, err);
      WalkSteps(from, to, s.0, s.1);
      WalkEnds(from, to, s.0, s.1);
      var w, rest := Walk(from, to, cur, err), Walk(from, to, s.0, s.1);
      assert w == [cur] + rest;
      forall k | 0 <= k < |w| - 1
        ensures StepsToward(to, w[k], w[k + 1])
      {
        if k > 0 {
          assert w[k] == rest[k - 1] && w[k + 1] == rest[k];
        }
      }
    }
  }

  lemma {:induction false} WalkWithin(from: Point, to: Point, cur: Point, err: int)
    requires WalkInv(from, to, cur, err)
    ensures forall q :: q in Walk(from, to, cur, err) ==>
      Between(from.x, q.x, to.x) && Between(from.y, q.y, to.y)
    decreases Dist(to, cur)
  {
    if cur != to {
      StepLemma(from, to, cur, err);
      var s := Step(from, to, cur, err);
      WalkWithin(from, to, s.0, s.1);
    }
  }

  lemma {:induction false} WalkLength(from: Point, to: Point, cur: Point, err: int)
    requires WalkInv(from, to, cur, err)
    ensures var w := Walk(from, to, cur, err);
      Abs(to.x - cur.x) + 1 <= |w| && Abs(to.y - cur.y) + 1 <= |w| && |w| <= Dist(to, cur) + 1
    decreases Dist(to, cur)
  {
    if cur != to {
      StepLemma(from, to, cur, err);
      var s := Step(from, to, cur, err);
      WalkLength(from, to, s.0, s.1);
    }
  }

  /** `line(p1, p2)` emits `p1` first and `p2` last. */
  lemma LineEndpoints(p1: Point, p2: Point)
    ensures |LinePoints(p1, p2)| >= 1
    ensures LinePoints(p1, p2)[0] == p1
    ensures LinePoints(p1, p2)[|LinePoints(p1, p2)| - 1] == p2
  {
    InitialState(p1, p2);
    WalkEnds(p1, p2, p1, InitialErr(p1, p2));
  }

  /** `line(p1, p2)` emits exactly one point if and only if `p1 == p2`. */
  lemma LineSinglePoint(p1: Point, p2: Point)
    ensures |LinePoints(p1, p2)| == 1 <==> p1 == p2
  {
    LineEndpoints(p1, p2);
  }

  /** Between consecutive points of `line(p1, p2)` each coordinate moves by at
      most one, never away from `p2`, and the point always changes: the path is
      8-connected and never steps back. */
  lemma LineSteps(p1: Point, p2: Point)
    ensures var w := LinePoints(p1, p2);
      forall k :: 0 <= k < |w| - 1 ==> StepsToward(p2, w[k], w[k + 1])
  {
    InitialState(p1, p2);
    WalkSteps(p1, p2, p1, InitialErr(p1, p2));
    assert LinePoints(p1, p2) == Walk(p1, p2, p1, InitialErr(p1, p2));
  }

  /** Every point of `line(p1, p2)` lies in the box spanned by `p1` and `p2`. */
  lemma LineWithinBox(p1: Point, p2: Point)
    ensures forall q :: q in LinePoints(p1, p2) ==>
      Between(p1.x, q.x, p2.x) && Between(p1.y, q.y, p2.y)
  {
    InitialState(p1, p2);
    WalkWithin(p1, p2, p1, InitialErr(p1, p2));
  }

  /** The loop of `line(p1, p2)` terminates after emitting at least
      max(|dx|, |dy|) + 1 and at most |dx| + |dy| + 1 points. */
  lemma LineLength(p1: Point, p2: Point)
    ensures Abs(p2.x - p1.x) + 1 <= |LinePoints(p1, p2)|
    ensures Abs(p2.y - p1.y) + 1 <= |LinePoints(p1, p2)|
    ensures |LinePoints(p1, p2)| <= Abs(p2.x - p1.x) + Abs(p2.y - p1.y) + 1
  {
    InitialState(p1, p2);
    WalkLength(p1, p2, p1, InitialErr(p1, p2));
  }
}
