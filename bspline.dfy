/** B-spline curves on a clamped uniform knot vector, evaluated with the
    Cox–de Boor recursion (bspline.py). */
module BSpline {
  import opened Points
  import opened Outcomes
  import opened Sampling

  /** A B-spline curve: its control polygon, its order (the degree of the
      basis functions) and the knot vector built once by the constructor. */
  datatype BSplineCurve = BSplineCurve(controlPoints: seq<Point>, order: nat, knots: seq<real>)

  /** The ValueErrors numpy raises while the constructor builds the knots. */
  datatype ConfigError =
    | NegativeOrder       // `np.zeros(order)` with order < 0
    | NegativeKnotCount   // `np.linspace(..., num=n-order+1)` with a negative count

  predicate NonDecreasing(s: seq<real>) {
    forall i, j :: 0 <= i <= j < |s| ==> s[i] <= s[j]
  }

  /** The clamped uniform knot vector for n control points and order p:
      p zeros, then n-p+1 values equally spaced from 0 to 1, then p ones. */
  function KnotVector(n: nat, p: nat): (knots: seq<real>)
    requires p <= n + 1
    ensures |knots| == n + p + 1
    ensures forall i :: 0 <= i < |knots| ==> 0.0 <= knots[i] <= 1.0
    ensures forall i :: 0 <= i < p ==> knots[i] == 0.0
    ensures forall i :: n + 1 <= i < n + p + 1 ==> knots[i] == 1.0
    ensures p <= n ==> knots[p] == 0.0
    ensures p < n ==> knots[n] == 1.0
    ensures p < n ==> forall i :: p <= i <= n ==> knots[i] == Fraction(i - p, n - p)
    ensures NonDecreasing(knots)
  {
    var interior := LinspaceClosed(n + 1 - p);
    var knots := seq(p, _ => 0.0) + interior + seq(p, _ => 1.0);
    assert forall i :: p <= i < n + 1 ==> knots[i] == interior[i - p];
    assert forall i :: 0 <= i < p ==> knots[i] == 0.0;
    assert forall i :: n + 1 <= i < n + p + 1 ==> knots[i] == 1.0;
    knots
  }

  /** A curve as the constructor leaves it. */
  predicate Valid(curve: BSplineCurve) {
    curve.order <= |curve.controlPoints| + 1 &&
    curve.knots == KnotVector(|curve.controlPoints|, curve.order)
  }

  /** `BSpline(control_points, order)`: store the polygon and the order and
      build the knot vector, failing where numpy does. */
  function NewBSpline(controlPoints: seq<Point>, order: int): (r: Result<BSplineCurve, ConfigError>)
    ensures r == Err(NegativeOrder) <==> order < 0
    ensures r == Err(NegativeKnotCount) <==> 0 <= order && |controlPoints| + 1 < order
    ensures r.Ok? ==> Valid(r.value) && r.value.controlPoints == controlPoints && r.value.order == order
    ensures r.Ok? ==> |r.value.knots| == |controlPoints| + order + 1
  {
    if order < 0 then Err(NegativeOrder)
    else if |controlPoints| - order + 1 < 0 then Err(NegativeKnotCount)
    else Ok(BSplineCurve(controlPoints, order, KnotVector(|controlPoints|, order)))
  }

  /** Five control points of order 3: three zeros, the spacing 0, 1/2, 1, three ones. */
  lemma KnotVectorOfFivePointsOrderThree()
    ensures KnotVector(5, 3) == [0.0, 0.0, 0.0, 0.0, 0.5, 1.0, 1.0, 1.0, 1.0]
  {
    var knots := KnotVector(5, 3);
    assert knots[4] == Fraction(1, 2);
  }

  /** Construction fails only when numpy is asked for a negative number of
      samples: two control points of order 3 still build six knots (three
      zeros, three ones) with no interior spacing, one control point fails. */
  lemma ConstructionAtTheOrderBoundary(a: Point, b: Point)
    ensures NewBSpline([a, b], 3).Ok?
    ensures NewBSpline([a, b], 3).value.knots == [0.0, 0.0, 0.0, 1.0, 1.0, 1.0]
    ensures NewBSpline([a], 3) == Err(NegativeKnotCount)
  {
    assert KnotVector(2, 3) == [0.0, 0.0, 0.0, 1.0, 1.0, 1.0];
  }

  /** `_weight(i, p, x)`: the Cox–de Boor blending weight
      (x - t_i) / (t_{i+p} - t_i), and 0 on a zero-length span. */
  function Weight(knots: seq<real>, i: nat, p: nat, x: real): (w: real)
    requires i + p < |knots|
    ensures knots[i + p] == knots[i] ==> w == 0.0
    ensures knots[i + p] != knots[i] ==> w * (knots[i + p] - knots[i]) == x - knots[i]
  {
    if knots[i + p] == knots[i] then 0.0 else (x - knots[i]) / (knots[i + p] - knots[i])
  }

  /** A quotient a/d with 0 <= a < d lies in [0,1). */
  lemma QuotientInUnitInterval(a: real, d: real)
    requires 0.0 <= a < d
    ensures 0.0 <= a / d < 1.0
  {
    assert a / d * d == a;
  }

  /** A parameter inside [t_i, t_{i+p}) has a weight in [0,1). */
  lemma WeightInUnitInterval(knots: seq<real>, i: nat, p: nat, x: real)
    requires i + p < |knots|
    requires knots[i] <= x < knots[i + p]
    ensures 0.0 <= Weight(knots, i, p, x) < 1.0
  {
    QuotientInUnitInterval(x - knots[i], knots[i + p] - knots[i]);
  }

  /** The Cox–de Boor recurrence: the left basis value weighted by w_l plus the
      right one weighted by 1 - w_r. */
  function Recurrence(leftWeight: real, left: real, rightWeight: real, right: real): real {
    leftWeight * left + (1.0 - rightWeight) * right
  }

  /** `_basis(i, p, x)`: the Cox–de Boor basis function B_{i,p}(x). The
      recursion lowers p by one each step, and every knot index it reads lies
      below i + p + 2. A nonzero value needs x in a base span [t_j, t_{j+1})
      with i <= j <= i + p. */
  function Basis(knots: seq<real>, i: nat, p: nat, x: real): (b: real)
    requires i + p + 1 < |knots|
    ensures p == 0 ==> b == 0.0 || b == 1.0
    ensures p == 0 ==> (b == 1.0 <==> knots[i] <= x < knots[i + 1])
    ensures b != 0.0 ==> exists j :: i <= j <= i + p && knots[j] <= x < knots[j + 1]
    decreases p
  {
    if p == 0 then
      if knots[i] <= x < knots[i + 1] then 1.0 else 0.0
    else
      Recurrence(Weight(knots, i, p, x), Basis(knots, i, p - 1, x),
                 Weight(knots, i + 1, p, x), Basis(knots, i + 1, p - 1, x))
  }

  /** Local support: on sorted knots, B_{i,p} vanishes outside [t_i, t_{i+p+1}). */
  lemma BasisLocalSupport(knots: seq<real>, i: nat, p: nat, x: real)
    requires NonDecreasing(knots) && i + p + 1 < |knots|
    requires x < knots[i] || knots[i + p + 1] <= x
    ensures Basis(knots, i, p, x) == 0.0
  {
  }

  /** The recurrence of two non-negative basis values is non-negative when
      each weight that multiplies a nonzero value lies in range. */
  lemma RecurrenceNonNegative(leftWeight: real, left: real, rightWeight: real, right: real)
    requires left >= 0.0 && (left == 0.0 || leftWeight >= 0.0)
    requires right >= 0.0 && (right == 0.0 || rightWeight <= 1.0)
    ensures Recurrence(leftWeight, left, rightWeight, right) >= 0.0
  {
    assert leftWeight * left >= 0.0;
    assert (1.0 - rightWeight) * right >= 0.0;
  }

  /** On sorted knots, B_{i,p-1}(x) is 0 wherever w(i,p,x) is negative. */
  lemma LeftWeightInRange(knots: seq<real>, i: nat, p: nat, x: real)
    requires NonDecreasing(knots) && 0 < p && i + p + 1 < |knots|
    ensures Basis(knots, i, p - 1, x) == 0.0 || Weight(knots, i, p, x) >= 0.0
  {
    if x < knots[i] || knots[i + p] <= x {
      BasisLocalSupport(knots, i, p - 1, x);
    } else {
      WeightInUnitInterval(knots, i, p, x);
    }
  }

  /** On sorted knots, B_{i+1,p-1}(x) is 0 wherever w(i+1,p,x) exceeds 1. */
  lemma RightWeightInRange(knots: seq<real>, i: nat, p: nat, x: real)
    requires NonDecreasing(knots) && 0 < p && i + p + 1 < |knots|
    ensures Basis(knots, i + 1, p - 1, x) == 0.0 || Weight(knots, i + 1, p, x) <= 1.0
  {
    if x < knots[i + 1] || knots[i + p + 1] <= x {
      BasisLocalSupport(knots, i + 1, p - 1, x);
    } else {
      WeightInUnitInterval(knots, i + 1, p, x);
    }
  }

  /** On sorted knots every basis value is non-negative: wherever a lower
      basis function is nonzero its weight lies in [0,1). */
  lemma {:induction false} BasisNonNegative(knots: seq<real>, i: nat, p: nat, x: real)
    requires NonDecreasing(knots) && i + p + 1 < |knots|
    ensures Basis(knots, i, p, x) >= 0.0
    decreases p
  {
    if p > 0 {
      BasisNonNegative(knots, i, p - 1, x);
      BasisNonNegative(knots, i + 1, p - 1, x);
      LeftWeightInRange(knots, i, p, x);
      RightWeightInRange(knots, i, p, x);
      RecurrenceNonNegative(Weight(knots, i, p, x), Basis(knots, i, p - 1, x),
                            Weight(knots, i + 1, p, x), Basis(knots, i + 1, p - 1, x));
    }
  }

  /** Outside [0,1) — below the first knot or at or beyond the last — no base
      span contains x, so every basis function of the curve is 0. */
  lemma BasisOutsideDomain(curve: BSplineCurve, i: nat, x: real)
    requires Valid(curve) && i < |curve.controlPoints|
    requires x < 0.0 || x >= 1.0
    ensures Basis(curve.knots, i, curve.order, x) == 0.0
  {
    BasisLocalSupport(curve.knots, i, curve.order, x);
  }

  /** The sum of the first k terms of `_point_on_curve`, added left to right as
      Python's `sum` does: control point j scaled by B_{j,order}(x). */
  function WeightedSum(curve: BSplineCurve, x: real, k: nat): (r: Point)
    requires Valid(curve) && k <= |curve.controlPoints|
    ensures (x < 0.0 || x >= 1.0) ==> r == Zero
  {
    if k == 0 then Zero
    else
      Add(WeightedSum(curve, x, k - 1),
          Scale(Basis(curve.knots, k - 1, curve.order, x), curve.controlPoints[k - 1]))
  }

  /** `_point_on_curve(x)`: the control points weighted by the basis functions
      of the curve's order; the zero vector for x outside [0,1), the endpoint 1
      included. */
  function PointOnCurve(curve: BSplineCurve, x: real): (r: Point)
    requires Valid(curve)
    ensures (x < 0.0 || x >= 1.0) ==> r == Zero
  {
    WeightedSum(curve, x, |curve.controlPoints|)
  }

  /** B_{lo,p}(x) + ... + B_{hi-1,p}(x). */
  function BasisSum(knots: seq<real>, lo: nat, hi: nat, p: nat, x: real): real
    requires lo <= hi && hi + p < |knots|
    decreases hi - lo
  {
    if hi == lo then 0.0 else BasisSum(knots, lo, hi - 1, p, x) + Basis(knots, hi - 1, p, x)
  }

  /** On sorted knots the degree-0 functions of consecutive spans add up to
      the indicator of the union of the spans. */
  lemma {:induction false} SpanIndicatorSum(knots: seq<real>, lo: nat, hi: nat, x: real)
    requires NonDecreasing(knots) && lo <= hi < |knots|
    ensures BasisSum(knots, lo, hi, 0, x) == if knots[lo] <= x < knots[hi] then 1.0 else 0.0
    decreases hi - lo
  {
    if hi > lo {
      SpanIndicatorSum(knots, lo, hi - 1, x);
    }
  }

  /** Two recurrences sharing a middle pair (w, b) combine into the outer
      recurrence plus b, since that pair's weights w and 1 - w add up to 1. */
  lemma RecurrencesChain(a: real, b: real, c: real, d: real, e: real, f: real)
    ensures Recurrence(a, b, c, d) + Recurrence(c, d, e, f) == Recurrence(a, b, e, f) + d
  {
  }

  /** Unfolding one level of the recursion in a sum of consecutive basis
      functions: the weights of neighbouring terms add up to 1, leaving only
      the two boundary terms weighted. */
  lemma {:induction false} BasisSumTelescopes(knots: seq<real>, lo: nat, hi: nat, q: nat, x: real)
    requires lo < hi && hi + q + 1 < |knots|
    ensures BasisSum(knots, lo, hi, q + 1, x)
         == Recurrence(Weight(knots, lo, q + 1, x), Basis(knots, lo, q, x),
                       Weight(knots, hi, q + 1, x), Basis(knots, hi, q, x))
          + BasisSum(knots, lo + 1, hi, q, x)
    decreases hi - lo
  {
    if hi > lo + 1 {
      BasisSumTelescopes(knots, lo, hi - 1, q, x);
      RecurrencesChain(Weight(knots, lo, q + 1, x), Basis(knots, lo, q, x),
                       Weight(knots, hi - 1, q + 1, x), Basis(knots, hi - 1, q, x),
                       Weight(knots, hi, q + 1, x), Basis(knots, hi, q, x));
    }
  }

  /** The recurrence of two zero basis values is zero, whatever the weights. */
  lemma RecurrenceOfZeros(leftWeight: real, rightWeight: real)
    ensures Recurrence(leftWeight, 0.0, rightWeight, 0.0) == 0.0
  {
  }

  /** On the clamped knot vector with n > p, the degree-q functions with
      indices p-q .. n-1 sum to 1 at every x in [0,1). */
  lemma {:induction false} PartitionAtDegree(n: nat, p: nat, q: nat, x: real)
    requires p < n && q <= p && 0.0 <= x < 1.0
    ensures BasisSum(KnotVector(n, p), p - q, n, q, x) == 1.0
    decreases q
  {
    var knots := KnotVector(n, p);
    if q == 0 {
      SpanIndicatorSum(knots, p, n, x);
    } else {
      PartitionAtDegree(n, p, q - 1, x);
      BasisSumTelescopes(knots, p - q, n, q - 1, x);
      BasisLocalSupport(knots, p - q, q - 1, x);
      BasisLocalSupport(knots, n, q - 1, x);
      RecurrenceOfZeros(Weight(knots, p - q, q, x), Weight(knots, n, q, x));
    }
  }

  /** Partition of unity: for a curve with more control points than its order,
      the basis functions used by `_point_on_curve` sum to 1 on [0,1). */
  lemma PartitionOfUnity(curve: BSplineCurve, x: real)
    requires Valid(curve) && curve.order < |curve.controlPoints|
    requires 0.0 <= x < 1.0
    ensures BasisSum(curve.knots, 0, |curve.controlPoints|, curve.order, x) == 1.0
  {
    PartitionAtDegree(|curve.controlPoints|, curve.order, curve.order, x);
  }

  /** With as many control points as its order, the curve is not a partition
      of unity: one control point of order 1 has knots 0, 0, 1, its single
      basis function is 1 - x on [0,1), and the curve point at x is (1 - x)
      times the control point instead of the point itself. */
  lemma PartitionFailsAtOrderEqualsCount(c: Point, x: real)
    requires 0.0 <= x < 1.0
    ensures KnotVector(1, 1) == [0.0, 0.0, 1.0]
    ensures Basis(KnotVector(1, 1), 0, 1, x) == 1.0 - x
    ensures BasisSum(KnotVector(1, 1), 0, 1, 1, x) == 1.0 - x
    ensures NewBSpline([c], 1).Ok?
    ensures PointOnCurve(NewBSpline([c], 1).value, x) == Scale(1.0 - x, c)
  {
    var knots := KnotVector(1, 1);
    assert knots == [0.0, 0.0, 1.0];
    assert Weight(knots, 0, 1, x) == 0.0;
    assert Basis(knots, 1, 0, x) == 1.0;
    assert Weight(knots, 1, 1, x) == x;
    assert Basis(knots, 0, 1, x) == 1.0 - x;
    var curve := NewBSpline([c], 1).value;
    assert curve.knots == knots;
    assert WeightedSum(curve, x, 1) == Add(Zero, Scale(1.0 - x, c));
  }

  /** With every control point equal to c, the first k terms of the weighted
      sum are c scaled by the sum of the first k basis values. */
  lemma {:induction false} WeightedSumOfConstantPolygon(curve: BSplineCurve, c: Point, x: real, k: nat)
    requires Valid(curve) && k <= |curve.controlPoints|
    requires forall j :: 0 <= j < |curve.controlPoints| ==> curve.controlPoints[j] == c
    ensures WeightedSum(curve, x, k) == Scale(BasisSum(curve.knots, 0, k, curve.order, x), c)
  {
    if k > 0 {
      WeightedSumOfConstantPolygon(curve, c, x, k - 1);
      ScaleDistributes(BasisSum(curve.knots, 0, k - 1, curve.order, x),
                       Basis(curve.knots, k - 1, curve.order, x), c);
    }
  }

  /** A curve whose control points all coincide at c, with more control points
      than its order, is the single point c everywhere on [0,1). */
  lemma PointOnCurveOfConstantPolygon(curve: BSplineCurve, c: Point, x: real)
    requires Valid(curve) && curve.order < |curve.controlPoints|
    requires forall j :: 0 <= j < |curve.controlPoints| ==> curve.controlPoints[j] == c
    requires 0.0 <= x < 1.0
    ensures PointOnCurve(curve, x) == c
  {
    WeightedSumOfConstantPolygon(curve, c, x, |curve.controlPoints|);
    PartitionOfUnity(curve, x);
  }

  /** `curve(N)`: the curve point at each of N parameters k/N, equally spaced
      over the half-open interval [0,1). */
  function Curve(curve: BSplineCurve, n: nat): (r: seq<Point>)
    requires Valid(curve)
    ensures |r| == n
    ensures forall k :: 0 <= k < n ==> r[k] == PointOnCurve(curve, Fraction(k, n))
  {
    var xs := LinspaceOpen(n);
    seq(n, k requires 0 <= k < n => PointOnCurve(curve, xs[k]))
  }

  /** Sampling never reaches the endpoint 1, where every basis function is 0:
      a curve with coinciding control points (and more of them than its order)
      is sampled as that point N times, never as the zero vector. */
  lemma CurveOfConstantPolygon(curve: BSplineCurve, c: Point, n: nat)
    requires Valid(curve) && curve.order < |curve.controlPoints|
    requires forall j :: 0 <= j < |curve.controlPoints| ==> curve.controlPoints[j] == c
    ensures Curve(curve, n) == seq(n, _ => c)
  {
    var xs := LinspaceOpen(n);
    forall k | 0 <= k < n ensures Curve(curve, n)[k] == c {
      PointOnCurveOfConstantPolygon(curve, c, xs[k]);
    }
  }

  /** Evaluating at the endpoint itself gives the zero vector, not the last
      control point. */
  lemma PointOnCurveAtEndpoint(curve: BSplineCurve)
    requires Valid(curve)
    ensures PointOnCurve(curve, 1.0) == Zero
  {
  }
}
