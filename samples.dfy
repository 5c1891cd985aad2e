/** Values shared by the tabulated function, the cubic spline and the optimizer:
    a sample point, an optional value and real division with the divisor checked. */
module Samples {

  /** One sample (x, y) of a tabulated function. */
  datatype SinglePoint = SinglePoint(x: real, y: real)

  /** A value that may be missing: `None` stands for a result the source
      represents as a non-finite double (NaN or an infinity). */
  datatype Option<T> = None | Some(value: T)

  /** Division of reals. The source divides doubles and gets an infinity or a
      NaN when the divisor is zero; reals have neither, so this quotient is 0
      there. Elsewhere it is the exact quotient. */
  function Quot(a: real, b: real): (q: real)
    ensures b != 0.0 ==> q * b == a
    ensures b == 0.0 ==> q == 0.0
  {
    if b == 0.0 then 0.0 else a / b
  }

  /** The x values of a sequence of points, in order. */
  function Xs(ps: seq<SinglePoint>): (xs: seq<real>)
    ensures |xs| == |ps|
    ensures forall i :: 0 <= i < |ps| ==> xs[i] == ps[i].x
  {
    seq(|ps|, i requires 0 <= i < |ps| => ps[i].x)
  }

  /** The y values of a sequence of points, in order. */
  function Ys(ps: seq<SinglePoint>): (ys: seq<real>)
    ensures |ys| == |ps|
    ensures forall i :: 0 <= i < |ps| ==> ys[i] == ps[i].y
  {
    seq(|ps|, i requires 0 <= i < |ps| => ps[i].y)
  }

  /** The points are ordered by x, ties allowed. */
  predicate SortedByX(ps: seq<SinglePoint>)
  {
    forall i, j :: 0 <= i < j < |ps| ==> ps[i].x <= ps[j].x
  }

  /** The points are ordered by x with no two x equal. */
  predicate StrictlyIncreasingX(ps: seq<SinglePoint>)
  {
    forall i, j :: 0 <= i < j < |ps| ==> ps[i].x < ps[j].x
  }

  /** `v` lies in the closed interval spanned by `a` and `b`, in either order. */
  predicate Between(v: real, a: real, b: real)
  {
    (a <= v <= b) || (b <= v <= a)
  }
}
