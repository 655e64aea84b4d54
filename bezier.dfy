/** Bézier curves evaluated with de Casteljau's algorithm (bezier.py). */
module Bezier {
  import opened Points
  import opened Outcomes
  import opened Sampling

  /** A Bézier curve is its control polygon, kept as given. */
  datatype BezierCurve = BezierCurve(controlPoints: seq<Point>)

  /** Raised by `curve` as an IndexError: with no control points the last
      level of the pyramid is empty and has no point to take. */
  datatype CurveError = EmptyControlPolygon

  /** Linear interpolation `a + t * (b - a)`; t is not restricted to [0,1]. */
  function Lerp(t: real, a: Point, b: Point): (r: Point)
    ensures Sub(r, a) == Scale(t, Sub(b, a))
    ensures t == 0.0 ==> r == a
    ensures t == 1.0 ==> r == b
    ensures a == b ==> r == a
  {
    Add(a, Scale(t, Sub(b, a)))
  }

  /** One pass of de Casteljau's algorithm: interpolate every adjacent pair. */
  function NextLevel(t: real, level: seq<Point>): (next: seq<Point>)
    ensures |level| == 0 ==> next == []
    ensures |level| >= 1 ==> IsNextLevel(t, level, next)
  {
    seq(if |level| == 0 then 0 else |level| - 1,
        i requires 0 <= i < |level| - 1 => Lerp(t, level[i], level[i + 1]))
  }

  /** `b` is obtained from `a` by one interpolation pass at `t`. */
  predicate IsNextLevel(t: real, a: seq<Point>, b: seq<Point>) {
    |b| == |a| - 1 &&
    forall i :: 0 <= i < |b| ==> b[i] == Lerp(t, a[i], a[i + 1])
  }

  /** Relational description of the pyramid: it starts with the control
      points, each level comes from the one before by one interpolation pass,
      and the passes stop exactly when a level has at most one point. */
  predicate IsPyramidOf(t: real, controlPoints: seq<Point>, xs: seq<seq<Point>>) {
    |xs| >= 1 && xs[0] == controlPoints && |xs[|xs| - 1]| <= 1 &&
    forall k :: 0 <= k < |xs| - 1 ==> |xs[k]| > 1 && IsNextLevel(t, xs[k], xs[k + 1])
  }

  /** The interpolation pyramid built from `level` at parameter `t`. */
  function Pyramid(t: real, level: seq<Point>): (xs: seq<seq<Point>>)
    ensures |xs| == if |level| == 0 then 1 else |level|
    ensures xs[0] == level
    ensures forall k :: 0 <= k < |xs| ==> |xs[k]| == |level| - k
    decreases |level|
  {
    if |level| <= 1 then [level] else [level] + Pyramid(t, NextLevel(t, level))
  }

  /** The recursive pyramid satisfies the relational description. */
  lemma {:induction false} PyramidIsPyramidOf(t: real, controlPoints: seq<Point>)
    ensures IsPyramidOf(t, controlPoints, Pyramid(t, controlPoints))
    decreases |controlPoints|
  {
    if |controlPoints| > 1 {
      var next := NextLevel(t, controlPoints);
      PyramidIsPyramidOf(t, next);
      var xs := Pyramid(t, controlPoints);
      assert xs == [controlPoints] + Pyramid(t, next);
      forall k | 0 <= k < |xs| - 1 ensures |xs[k]| > 1 && IsNextLevel(t, xs[k], xs[k + 1]) {
        if k > 0 {
          assert xs[k] == Pyramid(t, next)[k - 1] && xs[k + 1] == Pyramid(t, next)[k];
        }
      }
    }
  }

  /** ... and it is the only sequence of levels that does. */
  lemma {:induction false} PyramidOfIsUnique(t: real, controlPoints: seq<Point>, xs: seq<seq<Point>>)
    requires IsPyramidOf(t, controlPoints, xs)
    ensures xs == Pyramid(t, controlPoints)
    decreases |controlPoints|
  {
    if |xs| > 1 {
      var next := NextLevel(t, controlPoints);
      assert xs[1] == next;
      assert IsPyramidOf(t, next, xs[1..]) by {
        forall k | 0 <= k < |xs[1..]| - 1
          ensures |xs[1..][k]| > 1 && IsNextLevel(t, xs[1..][k], xs[1..][k + 1])
        {
          assert xs[1..][k] == xs[k + 1] && xs[1..][k + 1] == xs[k + 2];
        }
      }
      PyramidOfIsUnique(t, next, xs[1..]);
      assert xs == [controlPoints] + xs[1..];
    }
  }

  /** `_de_casteljau(t)`: the levels of the pyramid, built with the source's
      loop that appends one interpolated level at a time. */
  method DeCasteljau(curve: BezierCurve, t: real) returns (xs: seq<seq<Point>>)
    ensures IsPyramidOf(t, curve.controlPoints, xs)
    ensures |xs| == if |curve.controlPoints| == 0 then 1 else |curve.controlPoints|
    ensures forall k :: 0 <= k < |xs| ==> |xs[k]| == |curve.controlPoints| - k
    ensures |curve.controlPoints| == 1 ==> xs == [curve.controlPoints]
    ensures xs == Pyramid(t, curve.controlPoints)
  {
    xs := [curve.controlPoints];
    var last := xs[0];
    while |last| > 1
      invariant |xs| >= 1 && xs[0] == curve.controlPoints && xs[|xs| - 1] == last
      invariant forall k :: 0 <= k < |xs| ==> |xs[k]| == |curve.controlPoints| - k
      invariant forall k :: 0 <= k < |xs| - 1 ==> |xs[k]| > 1 && IsNextLevel(t, xs[k], xs[k + 1])
      decreases |last|
    {
      last := NextLevel(t, last);
      xs := xs + [last];
    }
    PyramidOfIsUnique(t, curve.controlPoints, xs);
  }

  /** The point of the curve at `t`: the single point on the pyramid's last level. */
  function CurvePoint(t: real, controlPoints: seq<Point>): (p: Point)
    requires |controlPoints| >= 1
    ensures Pyramid(t, controlPoints)[|controlPoints| - 1] == [p]
  {
    Pyramid(t, controlPoints)[|controlPoints| - 1][0]
  }

  /** Taking one interpolation pass does not change the apex of the pyramid. */
  lemma ApexOfNextLevel(t: real, controlPoints: seq<Point>)
    requires |controlPoints| >= 2
    ensures CurvePoint(t, controlPoints) == CurvePoint(t, NextLevel(t, controlPoints))
  {
    var next := NextLevel(t, controlPoints);
    assert Pyramid(t, controlPoints)[|controlPoints| - 1] == Pyramid(t, next)[|next| - 1];
  }

  /** The curve starts at the first control point and ends at the last one. */
  lemma {:induction false} CurvePointAtEnds(controlPoints: seq<Point>)
    requires |controlPoints| >= 1
    ensures CurvePoint(0.0, controlPoints) == controlPoints[0]
    ensures CurvePoint(1.0, controlPoints) == controlPoints[|controlPoints| - 1]
    decreases |controlPoints|
  {
    if |controlPoints| >= 2 {
      ApexOfNextLevel(0.0, controlPoints);
      ApexOfNextLevel(1.0, controlPoints);
      var atStart := NextLevel(0.0, controlPoints);
      var atEnd := NextLevel(1.0, controlPoints);
      CurvePointAtEnds(atStart);
      CurvePointAtEnds(atEnd);
      assert atStart[0] == Lerp(0.0, controlPoints[0], controlPoints[1]);
      assert atEnd[|atEnd| - 1] == Lerp(1.0, controlPoints[|controlPoints| - 2], controlPoints[|controlPoints| - 1]);
    }
  }

  /** A single control point is the curve point for every parameter. */
  lemma SinglePointCurve(t: real, p: Point)
    ensures CurvePoint(t, [p]) == p
  {
  }

  /** `curve(N)`: the curve point at each of N parameters equally spaced over
      the closed interval [0,1]. */
  function Curve(curve: BezierCurve, n: nat): (r: Result<seq<Point>, CurveError>)
    ensures r.Err? <==> |curve.controlPoints| == 0 && n > 0
    ensures r.Ok? ==> |r.value| == n
    ensures r.Ok? && n >= 2 ==> forall k :: 0 <= k < n ==>
              r.value[k] == CurvePoint(Fraction(k, n - 1), curve.controlPoints)
    ensures r.Ok? && n == 1 ==> r.value == [CurvePoint(0.0, curve.controlPoints)]
  {
    if n == 0 then Ok([])
    else if |curve.controlPoints| == 0 then Err(EmptyControlPolygon)
    else
      var ts := LinspaceClosed(n);
      Ok(seq(n, k requires 0 <= k < n => CurvePoint(ts[k], curve.controlPoints)))
  }

  /** The sampled curve begins at the first control point and, with at least
      two samples, ends at the last one. */
  lemma CurveEndpoints(curve: BezierCurve, n: nat)
    requires |curve.controlPoints| >= 1 && n >= 1
    ensures Curve(curve, n).Ok?
    ensures Curve(curve, n).value[0] == curve.controlPoints[0]
    ensures n >= 2 ==> Curve(curve, n).value[n - 1] == curve.controlPoints[|curve.controlPoints| - 1]
  {
    CurvePointAtEnds(curve.controlPoints);
  }
}
