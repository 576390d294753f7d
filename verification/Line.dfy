/** draw_line (src/kernel/libs/graphics.c), with plotting a pixel as appending a point. */
module Line {
  import opened Arithmetic

  datatype Point = Point(x: int, y: int)

  const MAX_ITER: nat := 1_000_000

  function Abs(n: int): nat { if n < 0 then -n else n }

  /** k pixels from `from` in the direction of `to`; along an axis of equal coordinates the source
      would step backwards. */
  function Towards(from: int, to: int, k: nat): int { if from < to then from + k else from - k }

  /** Steps along the minor axis (extent a) after k steps along the major axis (extent b): a * k / b
      rounded to the nearest integer, halves down. */
  function Minor(a: nat, b: nat, k: nat): nat
  {
    if b == 0 then 0 else (a * k + (b - b / 2 - 1)) / b
  }

  /** Point k of the line. */
  function LinePoint(p: Point, q: Point, k: nat): Point
  {
    var dx, dy := Abs(q.x - p.x), Abs(q.y - p.y);
    if dx > dy
    then Point(Towards(p.x, q.x, k), Towards(p.y, q.y, Minor(dy, dx, k)))
    else Point(Towards(p.x, q.x, Minor(dx, dy, k)), Towards(p.y, q.y, k))
  }

  function Extent(p: Point, q: Point): nat
  {
    var dx, dy := Abs(q.x - p.x), Abs(q.y - p.y);
    if dx > dy then dx else dy
  }

  // ---------------------------------------------------------------- the error term

  /** The error e after k major and j minor steps. */
  ghost predicate Tracks(a: nat, b: nat, k: nat, j: nat, e: int)
  {
    e == b / 2 - a * k + b * j && 0 <= e < b
  }

  lemma TracksStep(a: nat, b: nat, k: nat, j: nat, e: int)
    requires Tracks(a, b, k, j, e) && a <= b
    ensures if e < a then Tracks(a, b, k + 1, j + 1, e - a + b) else Tracks(a, b, k + 1, j, e - a)
  {
    assert a * (k + 1) == a * k + a;
    assert b * (j + 1) == b * j + b;
  }

  lemma QuotientIs(n: nat, b: nat, j: nat)
    requires b > 0 && b * j <= n < b * (j + 1)
    ensures n / b == j
  {
    var q := n / b;
    assert b * q <= n < b * (q + 1);
    if q < j {
      MulMonotone(q + 1, j, b);
    } else if j < q {
      MulMonotone(j + 1, q, b);
    }
  }

  /** The error term keeps the minor coordinate at its nearest integer. */
  lemma TracksMinor(a: nat, b: nat, k: nat, j: nat, e: int)
    requires Tracks(a, b, k, j, e)
    ensures j == Minor(a, b, k)
  {
    assert b * (j + 1) == b * j + b;
    QuotientIs(a * k + (b - b / 2 - 1), b, j);
  }

  /** The error after k major steps, for every k. */
  lemma {:induction false} MinorTracks(a: nat, b: nat, k: nat)
    requires a <= b && 0 < b
    ensures Tracks(a, b, k, Minor(a, b, k), b / 2 - a * k + b * Minor(a, b, k))
  {
    if k == 0 {
      TracksMinor(a, b, 0, 0, b / 2);
    } else {
      MinorTracks(a, b, k - 1);
      var j := Minor(a, b, k - 1);
      var e := b / 2 - a * (k - 1) + b * j;
      TracksStep(a, b, k - 1, j, e);
      if e < a {
        TracksMinor(a, b, k, j + 1, e - a + b);
      } else {
        TracksMinor(a, b, k, j, e - a);
      }
    }
  }

  /** The drawn minor coordinate is within half a pixel of the ideal line. */
  lemma WithinHalfPixel(a: nat, b: nat, k: nat)
    requires a <= b
    ensures 2 * Abs(b * Minor(a, b, k) - a * k) <= b
  {
    if b > 0 {
      MinorTracks(a, b, k);
    } else {
      assert a * k == 0;
    }
  }

  /** The minor axis arrives together with the major axis, and advances by at most one per step. */
  lemma MinorArrives(a: nat, b: nat)
    requires a <= b
    ensures Minor(a, b, 0) == 0 && Minor(a, b, b) == a
  {
    if b > 0 {
      TracksMinor(a, b, 0, 0, b / 2);
      assert a * b == b * a;
      TracksMinor(a, b, b, a, b / 2);
    }
  }

  lemma MinorSteps(a: nat, b: nat, k: nat)
    requires a <= b
    ensures Minor(a, b, k) <= Minor(a, b, k + 1) <= Minor(a, b, k) + 1
  {
    if b > 0 {
      MinorTracks(a, b, k);
      var j := Minor(a, b, k);
      var e := b / 2 - a * k + b * j;
      TracksStep(a, b, k, j, e);
      if e < a {
        TracksMinor(a, b, k + 1, j + 1, e - a + b);
      } else {
        TracksMinor(a, b, k + 1, j, e - a);
      }
    }
  }

  // ---------------------------------------------------------------- what is drawn

  lemma LineEnds(p: Point, q: Point)
    ensures LinePoint(p, q, 0) == p && LinePoint(p, q, Extent(p, q)) == q
  {
    var dx, dy := Abs(q.x - p.x), Abs(q.y - p.y);
    MinorArrives(if dx > dy then dy else dx, Extent(p, q));
  }

  lemma LineIsNear(p: Point, q: Point, k: nat)
    requires k <= Extent(p, q)
    ensures var c, dx, dy := LinePoint(p, q, k), Abs(q.x - p.x), Abs(q.y - p.y);
            2 * Abs(dx * Abs(c.y - p.y) - dy * Abs(c.x - p.x)) <= Extent(p, q)
  {
    var dx, dy := Abs(q.x - p.x), Abs(q.y - p.y);
    WithinHalfPixel(if dx > dy then dy else dx, Extent(p, q), k);
    hide Minor;
  }

  lemma LineSteps(p: Point, q: Point, k: nat)
    ensures var c, d := LinePoint(p, q, k), LinePoint(p, q, k + 1);
            Abs(d.x - c.x) <= 1 && Abs(d.y - c.y) <= 1
            && (if Abs(q.x - p.x) > Abs(q.y - p.y) then Abs(d.x - c.x) == 1 else Abs(d.y - c.y) == 1)
  {
    var dx, dy := Abs(q.x - p.x), Abs(q.y - p.y);
    MinorSteps(if dx > dy then dy else dx, Extent(p, q), k);
    hide Minor;
  }

  /** The line runs from p to q; every step moves to one of the eight neighbours and advances the major
      axis; and every point is within half a pixel of the ideal line along the minor axis, that is
      |dx * (y - p.y) - dy * (x - p.x)|, with both distances taken towards q, is at most half the
      major extent. */
  lemma LineIsGood(p: Point, q: Point, k: nat)
    requires k <= Extent(p, q)
    ensures LinePoint(p, q, 0) == p && LinePoint(p, q, Extent(p, q)) == q
    ensures var c, dx, dy := LinePoint(p, q, k), Abs(q.x - p.x), Abs(q.y - p.y);
            2 * Abs(dx * Abs(c.y - p.y) - dy * Abs(c.x - p.x)) <= Extent(p, q)
    ensures var c, d := LinePoint(p, q, k), LinePoint(p, q, k + 1);
            Abs(d.x - c.x) <= 1 && Abs(d.y - c.y) <= 1
            && (if Abs(q.x - p.x) > Abs(q.y - p.y) then Abs(d.x - c.x) == 1 else Abs(d.y - c.y) == 1)
  {
    LineEnds(p, q);
    LineIsNear(p, q, k);
    LineSteps(p, q, k);
    hide LinePoint;
  }

  /** Where draw_line stands before it plots point k. */
  ghost predicate At(p: Point, q: Point, k: nat, x: int, y: int, err: int)
  {
    var dx, dy := Abs(q.x - p.x), Abs(q.y - p.y);
    && k <= Extent(p, q) && Point(x, y) == LinePoint(p, q, k)
    && (Extent(p, q) > 0 ==>
          if dx > dy then Tracks(dy, dx, k, Minor(dy, dx, k), err) else Tracks(dx, dy, k, Minor(dx, dy, k), -err))
  }

  lemma AtStart(p: Point, q: Point)
    ensures var dx, dy := Abs(q.x - p.x), Abs(q.y - p.y);
            At(p, q, 0, p.x, p.y, if dx > dy then dx / 2 else 0 - dy / 2)
  {
    var dx, dy := Abs(q.x - p.x), Abs(q.y - p.y);
    MinorArrives(if dx > dy then dy else dx, Extent(p, q));
  }

  /** The line ends exactly at step Extent(p, q). */
  lemma AtEnd(p: Point, q: Point, k: nat, x: int, y: int, err: int)
    requires At(p, q, k, x, y, err)
    ensures x == q.x && y == q.y <==> k == Extent(p, q)
  {
    var dx, dy := Abs(q.x - p.x), Abs(q.y - p.y);
    MinorArrives(if dx > dy then dy else dx, Extent(p, q));
  }

  /** One step of the error term, along either axis. */
  lemma MinorStep(a: nat, b: nat, k: nat, e: int)
    requires a <= b && Tracks(a, b, k, Minor(a, b, k), e)
    ensures var j := Minor(a, b, k + 1);
            if e < a then j == Minor(a, b, k) + 1 && Tracks(a, b, k + 1, j, e - a + b)
            else j == Minor(a, b, k) && Tracks(a, b, k + 1, j, e - a)
  {
    var j := Minor(a, b, k);
    TracksStep(a, b, k, j, e);
    if e < a {
      TracksMinor(a, b, k + 1, j + 1, e - a + b);
    } else {
      TracksMinor(a, b, k + 1, j, e - a);
    }
  }

  lemma TracksBound(a: nat, b: nat, k: nat, j: nat, e: int)
    requires Tracks(a, b, k, j, e)
    ensures 0 <= e < b
  {
  }

  /** The two tests of the loop body make step k. */
  lemma AtStep(p: Point, q: Point, k: nat, x: int, y: int, err: int)
    requires At(p, q, k, x, y, err) && k < Extent(p, q)
    ensures var dx, dy := Abs(q.x - p.x), Abs(q.y - p.y);
            At(p, q, k + 1,
               if err + dx > 0 then (if p.x < q.x then x + 1 else x - 1) else x,
               if err < dy then (if p.y < q.y then y + 1 else y - 1) else y,
               err - (if err + dx > 0 then dy else 0) + (if err < dy then dx else 0))
    ensures Abs(err) <= Extent(p, q)
  {
    var dx, dy := Abs(q.x - p.x), Abs(q.y - p.y);
    var a, b, e := if dx > dy then dy else dx, Extent(p, q), if dx > dy then err else -err;
    MinorStep(a, b, k, e);
    TracksBound(a, b, k, Minor(a, b, k), e);
    hide Minor, Tracks;
  }

  /** draw_line: it plots exactly the points of the line, in order, the first 1000000 of them if there
      are more. The distance keeps the error term inside 32 bits. */
  method DrawLine(p: Point, q: Point) returns (points: seq<Point>)
    requires Abs(q.x - p.x) + Abs(q.y - p.y) < 0x8000_0000
    ensures |points| == if Extent(p, q) < 1_000_000 then Extent(p, q) + 1 else 1_000_000
    ensures forall k :: 0 <= k < |points| ==> points[k] == LinePoint(p, q, k)
  {
    hide LinePoint, Tracks, Minor;
    var x, y := p.x, p.y;
    var dx: int, dy: int := Abs(q.x - x), Abs(q.y - y);
    var sx, sy := if x < q.x then 1 else -1, if y < q.y then 1 else -1;
    var err: int := if dx > dy then dx / 2 else 0 - dy / 2;
    AtStart(p, q);
    points := [];
    var maxIter := MAX_ITER;
    while maxIter > 0
      invariant 0 <= maxIter && maxIter + |points| == MAX_ITER && At(p, q, |points|, x, y, err)
      invariant forall i :: 0 <= i < |points| ==> points[i] == LinePoint(p, q, i)
    {
      maxIter := maxIter - 1;
      ghost var k := |points|;
      points := points + [Point(x, y)];
      AtEnd(p, q, k, x, y, err);
      if x == q.x && y == q.y {
        break;
      }
      AtStep(p, q, k, x, y, err);
      var e2 := err;
      if e2 > -dx {
        err := err - dy;
        x := x + sx;
      }
      assert -0x8000_0000 <= err < 0x8000_0000;
      if e2 < dy {
        err := err + dx;
        y := y + sy;
      }
      assert -0x8000_0000 <= err < 0x8000_0000;
    }
  }

  /** The far end is plotted exactly when the line is shorter than the iteration limit. */
  lemma EndReachedIffShort(p: Point, q: Point)
    ensures (exists k: nat :: k < 1_000_000 && k <= Extent(p, q) && LinePoint(p, q, k) == q) <==>
            Extent(p, q) < 1_000_000
  {
    LineIsGood(p, q, 0);
  }

  /** Where two pixels are equally near, the line stays behind: in both directions, along either axis. */
  lemma TiesStayBehind(p: Point)
    ensures LinePoint(p, Point(p.x + 2, p.y + 1), 1) == Point(p.x + 1, p.y)
    ensures LinePoint(p, Point(p.x + 1, p.y + 2), 1) == Point(p.x, p.y + 1)
    ensures LinePoint(p, Point(p.x - 2, p.y - 1), 1) == Point(p.x - 1, p.y)
    ensures LinePoint(p, Point(p.x - 1, p.y - 2), 1) == Point(p.x, p.y - 1)
  {
  }
}
