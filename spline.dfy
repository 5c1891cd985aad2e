/** The interpolating cubic spline through the points of a tabulated
    function: building its coefficients and evaluating it at an arbitrary x.
    Its second derivative is 0 at the first knot; at the last knot the
    system is closed by the last inner knot's equation shifted one place
    right, which is not the natural end condition (`RightEndNotNatural`). */
module Spline {
  import opened Samples

  /** One piece of the spline: the cubic
      a + b·(t - x) + c/2·(t - x)² + d/6·(t - x)³, used left of knot x. */
  datatype SplinePart = SplinePart(a: real, b: real, c: real, d: real, x: real)

  /** A value-initialised piece (every coefficient and the knot 0). */
  const ZeroPart := SplinePart(0.0, 0.0, 0.0, 0.0, 0.0)

  /** The piece `s` evaluated at `t` in Horner form. */
  function Horner(s: SplinePart, t: real): (r: real)
    ensures r == s.a + s.b * (t - s.x) + (s.c / 2.0) * (t - s.x) * (t - s.x)
                 + (s.d / 6.0) * (t - s.x) * (t - s.x) * (t - s.x)
    ensures t == s.x ==> r == s.a
  {
    var dx := t - s.x;
    s.a + (s.b + (s.c / 2.0 + s.d * dx / 6.0) * dx) * dx
  }

  /** The knots increase strictly. */
  predicate StrictlyIncreasingKnots(sp: seq<SplinePart>)
  {
    forall i, j :: 0 <= i < j < |sp| ==> sp[i].x < sp[j].x
  }

  /** Piece `j` is one the evaluation may use for `x`: piece 1 left of the
      first knot, the last piece right of the last knot, and in between a
      piece whose knot is the first one at or right of `x`. */
  predicate IsSegment(sp: seq<SplinePart>, x: real, j: int)
  {
    1 <= j < |sp| &&
    if x <= sp[0].x then j == 1
    else if x >= sp[|sp| - 1].x then j == |sp| - 1
    else sp[j - 1].x < x <= sp[j].x
  }

  /** Width of the gap left of knot `k`. */
  function Gap(sp: seq<SplinePart>, k: int): real
    requires 1 <= k < |sp|
  {
    sp[k].x - sp[k - 1].x
  }

  /** Slope of the chord left of knot `k`. */
  function Slope(sp: seq<SplinePart>, k: int): real
    requires 1 <= k < |sp|
  {
    Quot(sp[k].a - sp[k - 1].a, Gap(sp, k))
  }

  /** Right-hand side of the moment equation at inner knot `k`. */
  function Rhs(sp: seq<SplinePart>, k: int): real
    requires 1 <= k < |sp| - 1
  {
    6.0 * (Slope(sp, k + 1) - Slope(sp, k))
  }

  /** The tridiagonal moment equation at inner knot `k` holds for the c's. */
  predicate MomentRow(sp: seq<SplinePart>, k: int)
    requires 1 <= k < |sp| - 1
  {
    Gap(sp, k) * sp[k - 1].c + 2.0 * (Gap(sp, k) + Gap(sp, k + 1)) * sp[k].c
      + Gap(sp, k + 1) * sp[k + 1].c == Rhs(sp, k)
  }

  /** The closing equation the solve uses for the last c: the equation of
      the last inner knot shifted one place right. */
  predicate LastMomentRow(sp: seq<SplinePart>)
    requires |sp| >= 3
  {
    var k := |sp| - 2;
    Gap(sp, k) * sp[k].c + 2.0 * (Gap(sp, k) + Gap(sp, k + 1)) * sp[k + 1].c == Rhs(sp, k)
  }

  /** b and d of piece `i` follow from the c's at both ends of its gap and
      from the chord slope. */
  predicate PieceFits(sp: seq<SplinePart>, i: int)
    requires 1 <= i < |sp|
  {
    sp[i].d == Quot(sp[i].c - sp[i - 1].c, Gap(sp, i)) &&
    sp[i].b == Gap(sp, i) * (2.0 * sp[i].c + sp[i - 1].c) / 6.0 + Slope(sp, i)
  }

  /** Every piece but the first has b and d consistent with the c's. */
  predicate SegmentCoefficients(sp: seq<SplinePart>)
  {
    forall i :: 1 <= i < |sp| ==> PieceFits(sp, i)
  }

  /** Two piece sequences with the same knots and the same y at each. */
  predicate SameKnots(sp: seq<SplinePart>, sq: seq<SplinePart>)
  {
    |sp| == |sq| && forall k :: 0 <= k < |sp| ==> sp[k].x == sq[k].x && sp[k].a == sq[k].a
  }

  lemma SameKnotsTransitive(sp: seq<SplinePart>, sq: seq<SplinePart>, sr: seq<SplinePart>)
    requires SameKnots(sp, sq) && SameKnots(sq, sr)
    ensures SameKnots(sp, sr)
  {
  }

  /** Gaps, slopes and right-hand sides depend on the knots alone. */
  lemma SameKnotsAgree(sp: seq<SplinePart>, sq: seq<SplinePart>)
    requires SameKnots(sp, sq)
    ensures forall k :: 1 <= k < |sp| ==> Gap(sp, k) == Gap(sq, k) && Slope(sp, k) == Slope(sq, k)
    ensures forall k :: 1 <= k < |sp| - 1 ==> Rhs(sp, k) == Rhs(sq, k)
  {
  }

  /** Pivot of the forward sweep at inner knot `k`, given the previous alpha. */
  function Pivot(sp: seq<SplinePart>, k: int, am1: real): real
    requires 1 <= k < |sp| - 1
  {
    Gap(sp, k) * am1 + 2.0 * (Gap(sp, k) + Gap(sp, k + 1))
  }

  /** Step `k` of the forward sweep: alpha `al` and beta `be` at `k` from
      their predecessors `am1` and `bm1`. */
  predicate SweepStep(sp: seq<SplinePart>, k: int, am1: real, bm1: real, al: real, be: real)
    requires 1 <= k < |sp| - 1
  {
    al == Quot(-Gap(sp, k + 1), Pivot(sp, k, am1)) &&
    be == Quot(Rhs(sp, k) - Gap(sp, k) * bm1, Pivot(sp, k, am1))
  }

  /** Step `k` of the forward sweep as stored in `alpha` and `beta`. */
  predicate SweepStepAt(sp: seq<SplinePart>, alpha: seq<real>, beta: seq<real>, k: int)
    requires 1 <= k < |sp| - 1 && |alpha| == |sp| - 1 && |beta| == |sp| - 1
  {
    SweepStep(sp, k, alpha[k - 1], beta[k - 1], alpha[k], beta[k])
  }

  /** Every step of the forward sweep below `i` holds. */
  predicate SweptTo(sp: seq<SplinePart>, alpha: seq<real>, beta: seq<real>, i: int)
    requires |alpha| == |sp| - 1 && |beta| == |sp| - 1 && i <= |sp| - 1
  {
    forall k :: 1 <= k < i ==> SweepStepAt(sp, alpha, beta, k)
  }

  /** Back substitution at `k`: c at `k` from c at `k + 1`. */
  predicate BackStepAt(sp: seq<SplinePart>, alpha: seq<real>, beta: seq<real>, k: int)
    requires |alpha| == |sp| - 1 && |beta| == |sp| - 1 && 0 <= k < |sp| - 1
  {
    sp[k].c == alpha[k] * sp[k + 1].c + beta[k]
  }

  /** The back substitution has set every c from `i` up to the last but one. */
  predicate BackSubstituted(sp: seq<SplinePart>, alpha: seq<real>, beta: seq<real>, i: int)
    requires |alpha| == |sp| - 1 && |beta| == |sp| - 1 && 0 <= i
  {
    forall k :: i <= k < |sp| - 1 ==> BackStepAt(sp, alpha, beta, k)
  }

  /** b and d of piece `k` of `sp` are those the c's and knots of `sq` give. */
  predicate PieceFrom(sp: seq<SplinePart>, sq: seq<SplinePart>, k: int)
    requires |sp| == |sq| && 1 <= k < |sp|
  {
    sp[k].d == Quot(sq[k].c - sq[k - 1].c, Gap(sq, k)) &&
    sp[k].b == Gap(sq, k) * (2.0 * sq[k].c + sq[k - 1].c) / 6.0 + Slope(sq, k)
  }

  /** b and d of the pieces from `i` on are those the c's and knots of `sq` give. */
  predicate CoefficientsFrom(sp: seq<SplinePart>, sq: seq<SplinePart>, i: int)
    requires |sp| == |sq| && 1 <= i
  {
    forall k :: i <= k < |sp| ==> PieceFrom(sp, sq, k)
  }

  /** Storing step `i` of the sweep extends the steps already stored. */
  lemma SweptExtend(sp: seq<SplinePart>, alpha: seq<real>, beta: seq<real>, i: int, al: real, be: real)
    requires |alpha| == |sp| - 1 && |beta| == |sp| - 1 && 1 <= i < |sp| - 1
    requires SweptTo(sp, alpha, beta, i)
    requires SweepStep(sp, i, alpha[i - 1], beta[i - 1], al, be)
    ensures SweptTo(sp, alpha[i := al], beta[i := be], i + 1)
  {
    var alpha2, beta2 := alpha[i := al], beta[i := be];
    forall k | 1 <= k < i + 1
      ensures SweepStepAt(sp, alpha2, beta2, k)
    {
      if k < i {
        assert SweepStepAt(sp, alpha, beta, k);
      }
    }
  }

  /** The sweep depends on the knots alone. */
  lemma SweptSameKnots(sp: seq<SplinePart>, sq: seq<SplinePart>, alpha: seq<real>, beta: seq<real>, i: int)
    requires SameKnots(sp, sq) && |alpha| == |sp| - 1 && |beta| == |sp| - 1 && i <= |sp| - 1
    requires SweptTo(sq, alpha, beta, i)
    ensures SweptTo(sp, alpha, beta, i)
  {
    SameKnotsAgree(sp, sq);
    forall k | 1 <= k < i
      ensures SweepStepAt(sp, alpha, beta, k)
    {
      assert SweepStepAt(sq, alpha, beta, k);
      assert Pivot(sp, k, alpha[k - 1]) == Pivot(sq, k, alpha[k - 1]);
    }
  }

  /** One step of the back substitution: `next` sets c at `j` from c at `j + 1`. */
  lemma BackSubstitutionStep(sp: seq<SplinePart>, next: seq<SplinePart>, alpha: seq<real>, beta: seq<real>, j: int)
    requires |alpha| == |sp| - 1 && |beta| == |sp| - 1 && 1 <= j < |sp| - 1
    requires BackSubstituted(sp, alpha, beta, j + 1)
    requires next == sp[j := sp[j].(c := alpha[j] * sp[j + 1].c + beta[j])]
    ensures BackSubstituted(next, alpha, beta, j)
    ensures SameKnots(next, sp) && next[0] == sp[0] && next[|sp| - 1] == sp[|sp| - 1]
  {
    forall k | j <= k < |sp| - 1
      ensures BackStepAt(next, alpha, beta, k)
    {
      if k > j {
        assert BackStepAt(sp, alpha, beta, k);
      }
    }
  }

  /** One step of filling in b and d: `next` sets the piece at `j` from the
      gap `h` and the rise `dy` left of it. */
  lemma CoefficientStep(sp: seq<SplinePart>, sq: seq<SplinePart>, next: seq<SplinePart>, j: int, h: real, dy: real)
    requires SameKnots(sp, sq) && 1 <= j < |sp|
    requires forall k :: 0 <= k < |sp| ==> sp[k].c == sq[k].c
    requires CoefficientsFrom(sp, sq, j + 1)
    requires h == sq[j].x - sq[j - 1].x && dy == sq[j].a - sq[j - 1].a
    requires |next| == |sp| && forall k :: 0 <= k < |sp| && k != j ==> next[k] == sp[k]
    requires next[j].x == sp[j].x && next[j].a == sp[j].a && next[j].c == sp[j].c
    requires next[j].d == Quot(sp[j].c - sp[j - 1].c, h)
    requires next[j].b == h * (2.0 * sp[j].c + sp[j - 1].c) / 6.0 + Quot(dy, h)
    ensures CoefficientsFrom(next, sq, j)
    ensures SameKnots(next, sq) && next[0] == sp[0]
    ensures forall k :: 0 <= k < |sp| ==> next[k].c == sq[k].c
  {
    assert sp[j].c - sp[j - 1].c == sq[j].c - sq[j - 1].c;
    assert 2.0 * sp[j].c + sp[j - 1].c == 2.0 * sq[j].c + sq[j - 1].c;
    assert h == Gap(sq, j) && Quot(dy, h) == Slope(sq, j);
    assert PieceFrom(next, sq, j);
    forall k | j < k < |sp|
      ensures PieceFrom(next, sq, k)
    {
      assert PieceFrom(sp, sq, k);
    }
  }

  /** The moment equations depend on the knots and the c's alone. */
  lemma SameMomentsSameRows(sp: seq<SplinePart>, sq: seq<SplinePart>)
    requires SameKnots(sp, sq) && |sp| >= 3
    requires forall k :: 0 <= k < |sp| ==> sp[k].c == sq[k].c
    ensures forall k :: 1 <= k < |sp| - 1 ==> (MomentRow(sq, k) ==> MomentRow(sp, k))
    ensures LastMomentRow(sq) ==> LastMomentRow(sp)
  {
    forall k | 1 <= k < |sp| - 1
      ensures MomentRow(sq, k) ==> MomentRow(sp, k)
    {
      assert Gap(sp, k) == Gap(sq, k) && Gap(sp, k + 1) == Gap(sq, k + 1);
      assert Slope(sp, k) == Slope(sq, k) && Slope(sp, k + 1) == Slope(sq, k + 1);
      assert sp[k - 1].c == sq[k - 1].c && sp[k].c == sq[k].c && sp[k + 1].c == sq[k + 1].c;
    }
    var k := |sp| - 2;
    assert Gap(sp, k) == Gap(sq, k) && Gap(sp, k + 1) == Gap(sq, k + 1);
    assert Slope(sp, k) == Slope(sq, k) && Slope(sp, k + 1) == Slope(sq, k + 1);
    assert sp[k].c == sq[k].c && sp[k + 1].c == sq[k + 1].c;
  }

  /** Once b and d are filled in from the c's and knots of `sq`, the pieces'
      coefficients are consistent. */
  lemma CoefficientsFilled(sp: seq<SplinePart>, sq: seq<SplinePart>)
    requires SameKnots(sp, sq)
    requires forall k :: 0 <= k < |sp| ==> sp[k].c == sq[k].c
    requires |sp| >= 1 && CoefficientsFrom(sp, sq, 1)
    ensures SegmentCoefficients(sp)
  {
    forall i | 1 <= i < |sp|
      ensures PieceFits(sp, i)
    {
      assert PieceFrom(sp, sq, i);
      assert Gap(sp, i) == Gap(sq, i) && Slope(sp, i) == Slope(sq, i);
      assert sp[i].c - sp[i - 1].c == sq[i].c - sq[i - 1].c;
      assert 2.0 * sp[i].c + sp[i - 1].c == 2.0 * sq[i].c + sq[i - 1].c;
    }
  }

  /** Denominator of the last c. */
  function LastPivot(sp: seq<SplinePart>, alpha: seq<real>): real
    requires |sp| >= 3 && |alpha| == |sp| - 1
  {
    var k := |sp| - 2;
    2.0 * (Gap(sp, k) + Gap(sp, k + 1)) + Gap(sp, k) * alpha[k]
  }

  lemma PositiveProduct(p: real, q: real)
    requires p > 0.0 && q > 0.0
    ensures p * q > 0.0
  {
  }

  /** Scaling by a positive factor keeps the sign. */
  lemma ScaleSign(p: real, z: real)
    requires z > 0.0
    ensures p > 0.0 ==> p * z > 0.0
    ensures p >= 0.0 ==> p * z >= 0.0
  {
    if p > 0.0 {
      PositiveProduct(p, z);
    }
  }

  /** With positive gaps a pivot `z` exceeds twice the right gap `b`, so
      the next alpha `q` stays in (-1/2, 0]. */
  lemma PivotBound(a: real, b: real, am1: real, z: real, q: real)
    requires a > 0.0 && b > 0.0 && -0.5 < am1 <= 0.0
    requires z == a * am1 + 2.0 * (a + b) && q == Quot(-b, z)
    ensures z > 2.0 * b
    ensures -0.5 < q <= 0.0
  {
    PositiveProduct(a, am1 + 0.5);
    assert a * am1 + 0.5 * a > 0.0;
    assert q * z == -b;
    ScaleSign(q, z);
    ScaleSign(-0.5 - q, z);
    assert (-0.5 - q) * z == -0.5 * z - q * z;
  }

  /** The denominator of the last c is positive once alpha is in (-1/2, 0]. */
  lemma ClosingPivotPositive(a: real, b: real, al: real)
    requires a > 0.0 && b > 0.0 && -0.5 < al
    ensures 2.0 * (a + b) + a * al > 0.0
  {
    PositiveProduct(a, al + 0.5);
    assert a * (al + 0.5) == a * al + 0.5 * a;
  }

  /** With strictly increasing knots every alpha of the sweep lies in (-1/2, 0]. */
  lemma {:induction false} SweepAlphaBound(sp: seq<SplinePart>, alpha: seq<real>, beta: seq<real>, k: int)
    requires StrictlyIncreasingKnots(sp) && |sp| >= 3
    requires |alpha| == |sp| - 1 && |beta| == |sp| - 1 && alpha[0] == 0.0
    requires SweptTo(sp, alpha, beta, |sp| - 1)
    requires 0 <= k < |sp| - 1
    ensures -0.5 < alpha[k] <= 0.0
    ensures k > 0 ==> Pivot(sp, k, alpha[k - 1]) > 0.0
    decreases k
  {
    if k > 0 {
      SweepAlphaBound(sp, alpha, beta, k - 1);
      assert SweepStepAt(sp, alpha, beta, k);
      var a, b := Gap(sp, k), Gap(sp, k + 1);
      assert sp[k - 1].x < sp[k].x < sp[k + 1].x;
      PivotBound(a, b, alpha[k - 1], Pivot(sp, k, alpha[k - 1]), alpha[k]);
    }
  }

  /** One inner row of the tridiagonal system follows from the sweep step
      and the back substitution on either side of it. */
  lemma RowFromSweep(a: real, b: real, c: real, f: real, am1: real, bm1: real,
                     al: real, be: real, cm1: real, c0: real, cp1: real)
    requires al * (a * am1 + c) == -b
    requires be * (a * am1 + c) == f - a * bm1
    requires cm1 == am1 * c0 + bm1
    requires c0 == al * cp1 + be
    ensures a * cm1 + c * c0 + b * cp1 == f
  {
    var z := a * am1 + c;
    calc {
      a * cm1 + c * c0 + b * cp1;
      a * am1 * c0 + a * bm1 + c * c0 + b * cp1;
      z * c0 + a * bm1 + b * cp1;
      z * (al * cp1 + be) + a * bm1 + b * cp1;
      (al * z) * cp1 + be * z + a * bm1 + b * cp1;
      f;
    }
  }

  /** The last row: the closing equation from the last c and the back
      substitution one knot left of it. */
  lemma LastRowFromSweep(a: real, c: real, f: real, al: real, be: real, cm1: real, c0: real)
    requires c0 * (c + a * al) == f - a * be
    requires cm1 == al * c0 + be
    ensures a * cm1 + c * c0 == f
  {
    calc {
      a * cm1 + c * c0;
      a * al * c0 + a * be + c * c0;
      c0 * (c + a * al) + a * be;
      f;
    }
  }

  /** Inner row `k` of the moment system holds for c's produced by the
      sweep and the back substitution. */
  lemma InnerRowSolved(sp: seq<SplinePart>, alpha: seq<real>, beta: seq<real>, k: int)
    requires StrictlyIncreasingKnots(sp) && |sp| >= 3
    requires |alpha| == |sp| - 1 && |beta| == |sp| - 1 && alpha[0] == 0.0 && beta[0] == 0.0
    requires sp[0].c == 0.0
    requires 1 <= k < |sp| - 1
    requires SweepStep(sp, k, alpha[k - 1], beta[k - 1], alpha[k], beta[k]) && Pivot(sp, k, alpha[k - 1]) > 0.0
    requires sp[k].c == alpha[k] * sp[k + 1].c + beta[k]
    requires k > 1 ==> sp[k - 1].c == alpha[k - 1] * sp[k].c + beta[k - 1]
    ensures MomentRow(sp, k)
  {
    var a, b := Gap(sp, k), Gap(sp, k + 1);
    var z := Pivot(sp, k, alpha[k - 1]);
    var f := Rhs(sp, k);
    assert alpha[k] * z == -b;
    assert beta[k] * z == f - a * beta[k - 1];
    RowFromSweep(a, b, 2.0 * (a + b), f, alpha[k - 1], beta[k - 1], alpha[k], beta[k], sp[k - 1].c, sp[k].c, sp[k + 1].c);
  }

  /** The closing row holds for the last c and the back substitution left of it. */
  lemma LastRowSolved(sp: seq<SplinePart>, alpha: seq<real>, beta: seq<real>)
    requires StrictlyIncreasingKnots(sp) && |sp| >= 3
    requires |alpha| == |sp| - 1 && |beta| == |sp| - 1
    requires -0.5 < alpha[|sp| - 2] <= 0.0
    requires sp[|sp| - 2].c == alpha[|sp| - 2] * sp[|sp| - 1].c + beta[|sp| - 2]
    requires sp[|sp| - 1].c == Quot(Rhs(sp, |sp| - 2) - Gap(sp, |sp| - 2) * beta[|sp| - 2], LastPivot(sp, alpha))
    ensures LastMomentRow(sp)
  {
    var n := |sp|;
    var a, b := Gap(sp, n - 2), Gap(sp, n - 1);
    assert sp[n - 3].x < sp[n - 2].x < sp[n - 1].x;
    var d := LastPivot(sp, alpha);
    assert d == 2.0 * (a + b) + a * alpha[n - 2];
    ClosingPivotPositive(a, b, alpha[n - 2]);
    var f := Rhs(sp, n - 2);
    assert sp[n - 1].c * d == f - a * beta[n - 2];
    LastRowFromSweep(a, 2.0 * (a + b), f, alpha[n - 2], beta[n - 2], sp[n - 2].c, sp[n - 1].c);
  }

  /** Every inner row of the moment system holds for c's produced by the
      sweep and the back substitution. */
  lemma InnerRowsSolved(sp: seq<SplinePart>, alpha: seq<real>, beta: seq<real>)
    requires StrictlyIncreasingKnots(sp) && |sp| >= 3
    requires |alpha| == |sp| - 1 && |beta| == |sp| - 1 && alpha[0] == 0.0 && beta[0] == 0.0
    requires sp[0].c == 0.0
    requires SweptTo(sp, alpha, beta, |sp| - 1)
    requires BackSubstituted(sp, alpha, beta, 1)
    ensures forall k :: 1 <= k < |sp| - 1 ==> MomentRow(sp, k)
  {
    forall k | 1 <= k < |sp| - 1
      ensures MomentRow(sp, k)
    {
      SweepAlphaBound(sp, alpha, beta, k);
      assert SweepStepAt(sp, alpha, beta, k);
      assert BackStepAt(sp, alpha, beta, k);
      if k > 1 {
        assert BackStepAt(sp, alpha, beta, k - 1);
      }
      InnerRowSolved(sp, alpha, beta, k);
    }
  }

  lemma StrictSameKnots(sp: seq<SplinePart>, sq: seq<SplinePart>)
    requires SameKnots(sp, sq) && StrictlyIncreasingKnots(sq)
    ensures StrictlyIncreasingKnots(sp)
  {
    forall p, q | 0 <= p < q < |sp|
      ensures sp[p].x < sp[q].x
    {
      assert sq[p].x < sq[q].x;
    }
  }

  /** The c's produced by the sweep over `knots` and the back substitution
      solve the tridiagonal moment system, closed by the last-row equation. */
  lemma MomentSystemSolved(sp: seq<SplinePart>, knots: seq<SplinePart>, alpha: seq<real>, beta: seq<real>)
    requires SameKnots(sp, knots) && StrictlyIncreasingKnots(knots) && |sp| >= 3
    requires |alpha| == |sp| - 1 && |beta| == |sp| - 1 && alpha[0] == 0.0 && beta[0] == 0.0
    requires sp[0].c == 0.0
    requires SweptTo(knots, alpha, beta, |sp| - 1)
    requires BackSubstituted(sp, alpha, beta, 1)
    requires sp[|sp| - 1].c == Quot(Rhs(knots, |sp| - 2) - Gap(knots, |sp| - 2) * beta[|sp| - 2], LastPivot(knots, alpha))
    ensures forall k :: 1 <= k < |sp| - 1 ==> MomentRow(sp, k)
    ensures LastMomentRow(sp)
  {
    var n := |sp|;
    SweptSameKnots(sp, knots, alpha, beta, n - 1);
    StrictSameKnots(sp, knots);
    InnerRowsSolved(sp, alpha, beta);
    SweepAlphaBound(sp, alpha, beta, n - 2);
    assert BackStepAt(sp, alpha, beta, n - 2);
    SameKnotsAgree(sp, knots);
    assert Gap(sp, n - 2) == Gap(knots, n - 2) && Gap(sp, n - 1) == Gap(knots, n - 1);
    assert Rhs(sp, n - 2) == Rhs(knots, n - 2);
    assert LastPivot(sp, alpha) == LastPivot(knots, alpha);
    LastRowSolved(sp, alpha, beta);
  }

  /** The closing row is not the natural end condition (c = 0 at the last
      knot). Through (0, 0), (1, 1), (2, 0) the c's that satisfy the inner
      row and the closing row are c1 = c2 = -2.4; a natural spline has
      c1 = -3 and c2 = 0 there. */
  lemma RightEndNotNatural(sp: seq<SplinePart>)
    requires |sp| == 3
    requires sp[0].x == 0.0 && sp[1].x == 1.0 && sp[2].x == 2.0
    requires sp[0].a == 0.0 && sp[1].a == 1.0 && sp[2].a == 0.0
    requires sp[0].c == 0.0 && MomentRow(sp, 1) && LastMomentRow(sp)
    ensures sp[1].c == -2.4 && sp[2].c == -2.4
  {
    assert Gap(sp, 1) == 1.0 && Gap(sp, 2) == 1.0;
    assert Slope(sp, 1) == 1.0 && Slope(sp, 2) == -1.0;
    assert 4.0 * sp[1].c + sp[2].c == -12.0;
    assert sp[1].c + 4.0 * sp[2].c == -12.0;
  }

  /** Evaluated at the knot left of its gap, a piece whose b and d follow
      from the c's gives the y of that knot. */
  lemma LeftEndValue(prev: SplinePart, s: SplinePart)
    requires s.x != prev.x
    requires s.d == Quot(s.c - prev.c, s.x - prev.x)
    requires s.b == (s.x - prev.x) * (2.0 * s.c + prev.c) / 6.0 + Quot(s.a - prev.a, s.x - prev.x)
    ensures Horner(s, prev.x) == prev.a
  {
    var h := s.x - prev.x;
    var m := Quot(s.a - prev.a, h);
    assert m * h == s.a - prev.a;
    assert s.d * h == s.c - prev.c;
    calc {
      Horner(s, prev.x);
      s.a - s.b * h + (s.c / 2.0) * h * h - (s.d / 6.0) * h * h * h;
      s.a - (h * (2.0 * s.c + prev.c) / 6.0) * h - m * h + (s.c / 2.0) * h * h - ((s.d * h) / 6.0) * h * h;
      s.a - (h * (2.0 * s.c + prev.c) / 6.0) * h - (s.a - prev.a) + (s.c / 2.0) * h * h - ((s.c - prev.c) / 6.0) * h * h;
      prev.a;
    }
  }

  /** With strictly increasing knots the piece used at a knot is unique:
      piece 1 at the first knot and piece k at knot k >= 1. */
  lemma KnotSegment(sp: seq<SplinePart>, k: int, j: int)
    requires StrictlyIncreasingKnots(sp) && 0 <= k < |sp| && IsSegment(sp, sp[k].x, j)
    ensures j == if k == 0 then 1 else k
  {
    if 0 < k < |sp| - 1 {
      assert sp[0].x < sp[k].x < sp[|sp| - 1].x;
      assert sp[j - 1].x < sp[k].x <= sp[j].x;
      assert j - 1 < k;
      assert k <= j;
    }
  }

  /** A spline built from strictly increasing knots passes through every
      knot: the piece chosen there gives the knot's y. */
  lemma Interpolates(sp: seq<SplinePart>, k: int, j: int)
    requires StrictlyIncreasingKnots(sp) && SegmentCoefficients(sp)
    requires 0 <= k < |sp| && IsSegment(sp, sp[k].x, j)
    ensures Horner(sp[j], sp[k].x) == sp[k].a
  {
    KnotSegment(sp, k, j);
    if k == 0 {
      assert PieceFits(sp, 1);
      LeftEndValue(sp[0], sp[1]);
    }
  }

  /** Whatever piece the lookup chooses at a knot's x gives the knot's y:
      for the knots after the first as soon as the knots increase strictly,
      and for the first one too once the coefficients fit. */
  lemma ChosenPieceAtKnots(sp: seq<SplinePart>, x: real, j: int)
    requires IsSegment(sp, x, j)
    ensures StrictlyIncreasingKnots(sp) ==>
              forall k :: 1 <= k < |sp| && x == sp[k].x ==> Horner(sp[j], x) == sp[k].a
    ensures StrictlyIncreasingKnots(sp) && SegmentCoefficients(sp) ==>
              forall k :: 0 <= k < |sp| && x == sp[k].x ==> Horner(sp[j], x) == sp[k].a
  {
    if StrictlyIncreasingKnots(sp) {
      forall k | 1 <= k < |sp| && x == sp[k].x
        ensures Horner(sp[j], x) == sp[k].a
      {
        KnotSegment(sp, k, j);
      }
      if SegmentCoefficients(sp) {
        forall k | 0 <= k < |sp| && x == sp[k].x
          ensures Horner(sp[j], x) == sp[k].a
        {
          Interpolates(sp, k, j);
        }
      }
    }
  }

  /** What a build returns as written: the failure path returns false, the
      success path ends without a return statement, so the caller receives
      whatever value happens to be left over (`leftover`). */
  function BuildResultAsWritten(n: nat, leftover: bool): (r: bool)
    ensures n < 3 ==> !r
    ensures n >= 3 ==> r == leftover
  {
    if n < 3 then false else leftover
  }

  /** A build of three points that succeeds can still report failure. */
  lemma SuccessMayReportFailure()
    ensures exists leftover :: BuildResultAsWritten(3, leftover) != (3 >= 3)
  {
    assert BuildResultAsWritten(3, false) == false;
  }

  /** The pieces right after the knots are copied in: knot x and value a
      from each point, every other coefficient 0. */
  function KnotsOf(Points: seq<SinglePoint>): (sp: seq<SplinePart>)
    ensures |sp| == |Points|
    ensures forall k :: 0 <= k < |Points| ==> sp[k].x == Points[k].x && sp[k].a == Points[k].y
    ensures forall k :: 0 <= k < |Points| ==> sp[k].b == 0.0 && sp[k].c == 0.0 && sp[k].d == 0.0
  {
    seq(|Points|, k requires 0 <= k < |Points| => ZeroPart.(x := Points[k].x, a := Points[k].y))
  }

  /** The forward sweep of the tridiagonal solve over the inner knots,
      returning alpha, beta and the coefficients A, C, F of the last inner
      knot, which the closing equation reuses. */
  method ForwardSweep(Points: seq<SinglePoint>) returns (alpha: seq<real>, beta: seq<real>, A: real, C: real, F: real)
    requires |Points| >= 3
    ensures |alpha| == |Points| - 1 && |beta| == |Points| - 1 && alpha[0] == 0.0 && beta[0] == 0.0
    ensures SweptTo(KnotsOf(Points), alpha, beta, |Points| - 1)
    ensures A == Gap(KnotsOf(Points), |Points| - 2)
    ensures C == 2.0 * (Gap(KnotsOf(Points), |Points| - 2) + Gap(KnotsOf(Points), |Points| - 1))
    ensures F == Rhs(KnotsOf(Points), |Points| - 2)
  {
    var n := |Points|;
    ghost var knots := KnotsOf(Points);
    alpha := seq(n - 1, _ => 0.0);
    beta := seq(n - 1, _ => 0.0);
    var B: real;
    A, B, C, F := 0.0, 0.0, 0.0, 0.0;
    for i := 1 to n - 1
      invariant |alpha| == n - 1 && |beta| == n - 1 && alpha[0] == 0.0 && beta[0] == 0.0
      invariant SweptTo(knots, alpha, beta, i)
      invariant i > 1 ==> A == Gap(knots, i - 1) && C == 2.0 * (Gap(knots, i - 1) + Gap(knots, i))
                          && F == Rhs(knots, i - 1)
    {
      var h_i := Points[i].x - Points[i - 1].x;
      var h_i1 := Points[i + 1].x - Points[i].x;
      assert h_i == Gap(knots, i) && h_i1 == Gap(knots, i + 1);
      A := h_i;
      C := 2.0 * (h_i + h_i1);
      B := h_i1;
      F := 6.0 * (Quot(Points[i + 1].y - Points[i].y, h_i1) - Quot(Points[i].y - Points[i - 1].y, h_i));
      assert F == Rhs(knots, i);
      var z := A * alpha[i - 1] + C;
      assert z == Pivot(knots, i, alpha[i - 1]);
      SweptExtend(knots, alpha, beta, i, Quot(-B, z), Quot(F - A * beta[i - 1], z));
      alpha := alpha[i := Quot(-B, z)];
      beta := beta[i := Quot(F - A * beta[i - 1], z)];
    }
  }

  /** The back substitution: every c from the last but one down to the
      second, each from the c right of it. */
  method BackSubstitute(sp: seq<SplinePart>, alpha: seq<real>, beta: seq<real>) returns (r: seq<SplinePart>)
    requires |sp| >= 2 && |alpha| == |sp| - 1 && |beta| == |sp| - 1
    ensures SameKnots(r, sp) && r[0] == sp[0] && r[|sp| - 1] == sp[|sp| - 1]
    ensures forall k :: 0 <= k < |sp| ==> r[k].b == sp[k].b && r[k].d == sp[k].d
    ensures BackSubstituted(r, alpha, beta, 1)
  {
    var n := |sp|;
    r := sp;
    for i := n - 1 downto 1
      invariant SameKnots(r, sp) && r[0] == sp[0] && r[n - 1] == sp[n - 1]
      invariant forall k :: 0 <= k < n ==> r[k].b == sp[k].b && r[k].d == sp[k].d
      invariant BackSubstituted(r, alpha, beta, i)
    {
      ghost var prev := r;
      r := r[i := r[i].(c := alpha[i] * r[i + 1].c + beta[i])];
      BackSubstitutionStep(prev, r, alpha, beta, i);
      SameKnotsTransitive(r, prev, sp);
    }
  }

  /** Fills in b and d of every piece but the first from the c's and the
      points. */
  method FillCoefficients(Points: seq<SinglePoint>, sp: seq<SplinePart>) returns (r: seq<SplinePart>)
    requires |sp| == |Points| >= 1
    requires forall k :: 0 <= k < |sp| ==> sp[k].x == Points[k].x && sp[k].a == Points[k].y
    ensures SameKnots(r, sp) && r[0] == sp[0]
    ensures forall k :: 0 <= k < |sp| ==> r[k].c == sp[k].c
    ensures SegmentCoefficients(r)
  {
    var n := |sp|;
    r := sp;
    for i := n downto 1
      invariant SameKnots(r, sp) && r[0] == sp[0]
      invariant forall k :: 0 <= k < n ==> r[k].c == sp[k].c
      invariant CoefficientsFrom(r, sp, i)
    {
      var h_i := Points[i].x - Points[i - 1].x;
      ghost var prev := r;
      r := r[i := r[i].(d := Quot(r[i].c - r[i - 1].c, h_i),
                        b := h_i * (2.0 * r[i].c + r[i - 1].c) / 6.0
                             + Quot(Points[i].y - Points[i - 1].y, h_i))];
      CoefficientStep(prev, sp, r, i, h_i, Points[i].y - Points[i - 1].y);
      SameKnotsTransitive(r, prev, sp);
    }
    CoefficientsFilled(r, sp);
  }

  class CubicSpline {
    var Splines: seq<SplinePart>

    constructor()
      ensures Splines == []
    {
      Splines := [];
    }

    /** Builds the spline through `Points`, reporting whether it did. */
    method BuildSpline(Points: seq<SinglePoint>) returns (ok: bool)
      modifies this
      ensures ok <==> |Points| >= 3
      ensures !ok ==> Splines == old(Splines)
      ensures ok ==> |Splines| == |Points|
      ensures ok ==> forall i :: 0 <= i < |Points| ==> Splines[i].x == Points[i].x && Splines[i].a == Points[i].y
      ensures ok ==> Splines[0].b == 0.0 && Splines[0].c == 0.0 && Splines[0].d == 0.0
      ensures ok ==> SegmentCoefficients(Splines)
      ensures ok && StrictlyIncreasingX(Points) ==>
                (forall k :: 1 <= k < |Splines| - 1 ==> MomentRow(Splines, k)) && LastMomentRow(Splines)
    {
      var n := |Points|;
      if n < 3 {
        return false;
      }

      var sp := seq(n, _ => ZeroPart);
      for i := 0 to n
        invariant |sp| == n
        invariant forall k :: 0 <= k < i ==> sp[k] == ZeroPart.(x := Points[k].x, a := Points[k].y)
        invariant forall k :: i <= k < n ==> sp[k] == ZeroPart
      {
        sp := sp[i := sp[i].(x := Points[i].x, a := Points[i].y)];
      }
      sp := sp[0 := sp[0].(c := 0.0)];
      ghost var knots := KnotsOf(Points);
      assert sp == knots;

      var alpha, beta, A, C, F := ForwardSweep(Points);
      sp := sp[n - 1 := sp[n - 1].(c := Quot(F - A * beta[n - 2], C + A * alpha[n - 2]))];
      assert C + A * alpha[n - 2] == LastPivot(knots, alpha);
      assert F - A * beta[n - 2] == Rhs(knots, n - 2) - Gap(knots, n - 2) * beta[n - 2];
      SameKnotsTransitive(sp, knots, knots);
      sp := BackSubstitute(sp, alpha, beta);
      SameKnotsTransitive(sp, sp, knots);

      ghost var moments := sp;
      if StrictlyIncreasingX(Points) {
        assert StrictlyIncreasingKnots(knots) by {
          forall p, q | 0 <= p < q < n
            ensures knots[p].x < knots[q].x
          {
            assert knots[p].x == Points[p].x && knots[q].x == Points[q].x;
          }
        }
        MomentSystemSolved(moments, knots, alpha, beta);
      }

      sp := FillCoefficients(Points, sp);
      SameMomentsSameRows(sp, moments);
      Splines := sp;
      return true;
    }

    /** The spline's value at `x`; `None` when no spline has been built. */
    method Eval(x: real) returns (r: Option<real>)
      requires |Splines| != 1
      ensures r.None? <==> |Splines| == 0
      ensures r.Some? ==> exists j :: IsSegment(Splines, x, j) && r.value == Horner(Splines[j], x)
      ensures r.Some? && StrictlyIncreasingKnots(Splines) ==>
                forall k :: 1 <= k < |Splines| && x == Splines[k].x ==> r.value == Splines[k].a
      ensures r.Some? && StrictlyIncreasingKnots(Splines) && SegmentCoefficients(Splines) ==>
                forall k :: 0 <= k < |Splines| && x == Splines[k].x ==> r.value == Splines[k].a
    {
      if |Splines| == 0 {
        return None;
      }
      var s: SplinePart;
      ghost var seg: int;
      if x <= Splines[0].x {
        s, seg := Splines[1], 1;
      } else if x >= Splines[|Splines| - 1].x {
        s, seg := Splines[|Splines| - 1], |Splines| - 1;
      } else {
        var i, j := 0, |Splines| - 1;
        while i + 1 < j
          invariant 0 <= i < j < |Splines|
          invariant Splines[i].x < x <= Splines[j].x
          decreases j - i
        {
          var k := i + (j - i) / 2;
          if x <= Splines[k].x {
            j := k;
          } else {
            i := k;
          }
        }
        s, seg := Splines[j], j;
      }
      assert IsSegment(Splines, x, seg);
      r := Some(Horner(s, x));
      ChosenPieceAtKnots(Splines, x, seg);
    }
  }
}
