# Curve evaluation kernel of qfont, in Dafny

qfont draws glyphs from Bézier and B-spline curves. This project models the
part of it that computes points on those curves:

- `bezier.py`: linear interpolation (`lerp`), de Casteljau's interpolation
  pyramid (`Bezier._de_casteljau`) and the sampler `Bezier.curve`, which
  takes N parameters over the closed interval [0,1].
- `bspline.py`: the clamped uniform knot vector built by the `BSpline`
  constructor, the Cox–de Boor weight (`_weight`) and basis (`_basis`),
  the weighted sum of control points (`_point_on_curve`) and the sampler
  `BSpline.curve`, which takes N parameters over the half-open interval [0,1).

Files:

- `points.dfy`: a control point is a 2D vector over `real`. It supports
  addition, subtraction and scalar multiplication.
- `outcomes.dfy`: `Result`, which stands for a value or the exception the
  Python code raises instead.
- `sampling.dfy`: numpy's `linspace(0, 1, num=n)` and its `endpoint=False`
  form, as exact fractions k/(n-1) and k/n.
- `bezier.dfy`: `_de_casteljau` is a method. Its loop appends one level at a
  time, like the source's loop. It is proved equal to the recursive
  `Pyramid`, and `Pyramid` is proved equal to a relational description of
  the pyramid, in both directions.
- `bspline.dfy`: the B-spline code is pure, so it is modelled as a datatype
  plus functions and lemmas. The lemmas cover the knot vector's shape,
  weights that never divide by zero, local support and non-negativity of the
  basis, the zero vector outside [0,1), and partition of unity.

In a few places the code departs from the usual definition of a clamped
B-spline. The model follows the code:

- Here `order` is the degree of the basis functions. A clamped B-spline of
  degree p needs at least p + 1 control points, and a polygon with fewer
  should be refused. The constructor has no check. It fails only when numpy
  does: on a negative `order` (`np.zeros`) or a negative sample count
  (`np.linspace`), that is when n + 1 < order. With n = order - 1 it builds a
  knot vector of `order` zeros followed by `order` ones, with no interior
  knots (`BSpline.ConstructionAtTheOrderBoundary`).
- A curve conventionally has order ≥ 1 and at least one control point. The
  code accepts order 0 and an empty polygon. An empty Bézier polygon fails only when `curve` takes at least one sample: `[-1][0]` on
  the empty last level raises IndexError.
- Evaluating a B-spline outside its parameter domain [0,1) is conventionally
  an error. The code returns the zero vector there, and also at the endpoint 1
  itself.
- The basis functions of a clamped B-spline conventionally sum to 1 on
  [0,1), so a curve whose control points coincide is that single point.
  The code builds n basis functions of degree `order`, and they sum to 1
  on all of [0,1) only when n > order. With n = order the sum can fall
  short. One control point c of order 1 has knots 0, 0, 1. Its single
  basis function is 1 − x on [0,1), so the sum is 1 at x = 0 and below 1
  on (0,1), and the curve point at x is (1 − x)·c instead of c
  (`BSpline.PartitionFailsAtOrderEqualsCount`). This is why the
  partition-of-unity lemmas require n > order.

## Model

| member | source | states |
|---|---|---|
| Bezier.Lerp | bezier.py:6-8 | the offset of the result from a is t times the offset of b from a; t = 0 gives a, t = 1 gives b, and a point interpolated with itself stays put |
| Bezier.Pyramid | bezier.py:21-40 | for d ≥ 1 control points the pyramid has d levels, level k has d - k points (so the last has one), and level 0 is the control points; no control points give one empty level |
| Bezier.NextLevel | bezier.py:37-38 | one pass of the loop: for a non-empty level, one point fewer, point i being lerp(t, level[i], level[i+1]); nothing for an empty level |
| Bezier.PyramidIsPyramidOf | bezier.py:34-39 | the pyramid starts with the control points, each point i of level k+1 is lerp(t, level_k[i], level_k[i+1]), and interpolation stops at the first level with at most one point |
| Bezier.PyramidOfIsUnique | bezier.py:34-39 | any sequence of levels with those three properties is the pyramid |
| Bezier.DeCasteljau | bezier.py:21-40 | the loop returns exactly the pyramid, with max(d,1) levels of sizes d - k; one control point gives `[control_points]` with no interpolation |
| Bezier.CurvePointAtEnds | bezier.py:34-39 | the apex of the pyramid is the first control point at t = 0 and the last control point at t = 1 |
| Bezier.SinglePointCurve | bezier.py:34-36 | with a single control point the curve point is that point for every t |
| Bezier.CurvePoint | bezier.py:51 | `_de_casteljau(t)[-1][0]` for a non-empty polygon: the last level of the pyramid holds exactly one point, and that point is the result |
| Bezier.Curve | bezier.py:42-52 | fails exactly when there are no control points and N > 0; otherwise returns N points, point k being the apex `CurvePoint` at t = k/(N-1), or at t = 0 when N = 1 |
| Bezier.CurveEndpoints | bezier.py:51-52 | a sampled curve starts at the first control point and, with N ≥ 2, ends at the last one |
| Sampling.LinspaceClosed | bezier.py:52 | N parameters in [0,1], strictly increasing, the first 0; for N ≥ 2 parameter k is k/(N-1) and the last is 1 |
| Sampling.LinspaceClosedEquallySpaced | bezier.py:46-52 | for N ≥ 2 every step between neighbouring parameters is 1/(N-1) |
| Sampling.LinspaceOpen | bspline.py:34 | N parameters, parameter k being k/N, in [0,1), strictly increasing, the first 0; 1 is never among them |
| Sampling.LinspaceOpenEquallySpaced | bspline.py:34 | every step is 1/N, and one more step after the last parameter reaches the excluded endpoint 1 |
| BSpline.KnotVector | bspline.py:10-14 | length n + order + 1, all knots in [0,1] and non-decreasing; the first `order` are 0 and the last `order` are 1; when n ≥ order, knot `order` is 0; when n > order, knot n is 1 and knot order+k is k/(n-order) |
| BSpline.KnotVectorOfFivePointsOrderThree | bspline.py:10-14 | five control points of order 3 give the knots 0,0,0,0,1/2,1,1,1,1 |
| BSpline.NewBSpline | bspline.py:7-14 | a negative order and a negative sample count (n + 1 < order) are the two errors, and only they; otherwise the curve stores the polygon, the order and a knot vector of length n + order + 1 |
| BSpline.ConstructionAtTheOrderBoundary | bspline.py:12 | two control points of order 3 still construct (knots 0,0,0,1,1,1); one control point of order 3 fails |
| BSpline.Weight | bspline.py:16-20 | 0 when knots[i+p] == knots[i]; otherwise w·(knots[i+p] − knots[i]) = x − knots[i], so no division by zero occurs |
| BSpline.WeightInUnitInterval | bspline.py:16-20 | for x in [knots[i], knots[i+p]) the weight lies in [0,1) |
| BSpline.Basis | bspline.py:22-26 | the recursion terminates (p decreases) and reads only knots below i + p + 2; the base case is 1 exactly when knots[i] ≤ x < knots[i+1] and 0 otherwise; a nonzero value needs x in some half-open span [knots[j], knots[j+1]) with i ≤ j ≤ i + p |
| BSpline.BasisLocalSupport | bspline.py:22-26 | on sorted knots B(i,p,x) is 0 unless knots[i] ≤ x < knots[i+p+1] |
| BSpline.BasisNonNegative | bspline.py:22-26 | on sorted knots every basis value is ≥ 0 |
| BSpline.BasisOutsideDomain | bspline.py:22-26 | on the curve's knots every basis value of the curve's order is 0 for x < 0 and for x ≥ 1 |
| BSpline.WeightedSum | bspline.py:28-30 | a partial sum of the control points weighted by their basis values; it is the zero vector for x < 0 or x ≥ 1 |
| BSpline.PointOnCurve | bspline.py:28-30 | the sum over all control points of point · B(i, order, x); it is the zero vector for x < 0 or x ≥ 1 |
| BSpline.PointOnCurveAtEndpoint | bspline.py:24 | evaluating exactly at 1 gives the zero vector, not the last control point |
| BSpline.BasisSumTelescopes | bspline.py:25-26 | summing the recursion over consecutive indices cancels the inner weights, leaving only the two boundary terms |
| BSpline.PartitionAtDegree | bspline.py:22-26 | on the clamped knots with n > order, the degree-q functions with indices order-q … n-1 sum to 1 on [0,1) |
| BSpline.PartitionFailsAtOrderEqualsCount | bspline.py:10-30 | one control point c of order 1 gives knots 0, 0, 1; for every x in [0,1) its basis function and basis sum are 1 − x and its curve point is (1 − x)·c, so the basis is not a partition of unity when n = order |
| BSpline.PartitionOfUnity | bspline.py:28-30 | the basis values used by `_point_on_curve` sum to 1 for every x in [0,1) when n > order |
| BSpline.PointOnCurveOfConstantPolygon | bspline.py:28-30 | if all control points equal c (and n > order), the curve point is c everywhere on [0,1) |
| BSpline.Curve | bspline.py:32-34 | N points, point k being the curve point at k/N |
| BSpline.CurveOfConstantPolygon | bspline.py:32-34 | sampling a polygon of coinciding points c (n > order) gives c N times, never the zero vector that the endpoint 1 would give |

## Left out

- `Bezier._animate` (bezier.py:54-89), all of glyph.py and the `__main__` blocks: plotting, animation and image export.
- Floating point: coordinates, knots and parameters are exact reals. `linspace` values are exact fractions. The `==` test in `_weight` is exact real equality.
- Numpy array semantics: a point is a 2D record, not an array of any shape. The one negative index, `[-1]` on the pyramid list at bezier.py:51, becomes the explicit last index, one less than the number of control points, in `Bezier.CurvePoint`. No negative index reaches the knot array in `_weight` or `_basis`.
- The default `N=50` of `Bezier.curve` and `BSpline.curve` (bezier.py:42, bspline.py:32): `Curve` always takes N explicitly. The only caller in the repository passes it.
- The sample count N is a natural number. numpy raises ValueError for a negative N, and that case is not modelled.
- BSpline.PointOnCurve: for an empty polygon Python's `sum` returns the integer 0. The model returns the zero point.
- Affine invariance, memoised or localised Cox–de Boor evaluation: the code neither implements nor relies on them.
- Parallel sampling: the code is sequential. Every evaluation here is a pure function, so the order of the samples is the order of the parameters.
