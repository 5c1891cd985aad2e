/** The value-level behaviour of a tabulated function: straight-line
    interpolation, the statistics scan, sorting and de-duplication by x, and
    the three lookups together with the segment each of them picks. The class
    in module TableFunctions is proved against these definitions. */
module TableSpec {
  import opened Samples

  // ---------------------------------------------------------------------------
  // Straight-line interpolation

  /** Value at `x` of the straight line through (x1, y1) and (x2, y2). When
      x1 == x2 the source divides by zero and gets a non-finite double; that is
      `None` here. */
  function LineInterpol(x: real, x1: real, x2: real, y1: real, y2: real): (r: Option<real>)
    ensures r.Some? <==> x1 != x2
    ensures r.Some? && x == x1 ==> r.value == y1
    ensures r.Some? && x == x2 ==> r.value == y2
    ensures r.Some? && Between(x, x1, x2) ==> Between(r.value, y1, y2)
  {
    if x1 == x2 then None
    else
      LineStaysBetween(x, x1, x2, y1, y2);
      Some(y1 + (x - x1) * (y2 - y1) / (x2 - x1))
  }

  /** Between the two abscissae the line stays between the two ordinates. */
  lemma LineStaysBetween(x: real, x1: real, x2: real, y1: real, y2: real)
    requires x1 != x2
    ensures Between(x, x1, x2) ==> Between(y1 + (x - x1) * (y2 - y1) / (x2 - x1), y1, y2)
  {
    var d := x2 - x1;
    var t := (x - x1) / d;
    var q := (x - x1) * (y2 - y1) / d;
    assert t * d == x - x1;
    assert q * d == (x - x1) * (y2 - y1);
    assert (t * (y2 - y1)) * d == (x - x1) * (y2 - y1);
    CancelFactor(q, t * (y2 - y1), d);
    if Between(x, x1, x2) {
      FractionInUnit(t, d, x - x1);
      MulSigns(t, y2 - y1);
      MulSigns(t - 1.0, y2 - y1);
    }
  }

  /** Multiplying by a non-zero factor is injective. */
  lemma CancelFactor(a: real, b: real, d: real)
    requires d != 0.0 && a * d == b * d
    ensures a == b
  {
    assert (a - b) * d == 0.0;
    MulSigns(a - b, d);
  }

  /** The sign rule for products of reals. */
  lemma MulSigns(a: real, b: real)
    ensures a < 0.0 && b > 0.0 ==> a * b < 0.0
    ensures a > 0.0 && b < 0.0 ==> a * b < 0.0
    ensures a < 0.0 && b < 0.0 ==> a * b > 0.0
    ensures a > 0.0 && b > 0.0 ==> a * b > 0.0
    ensures a >= 0.0 && b >= 0.0 ==> a * b >= 0.0
    ensures a <= 0.0 && b >= 0.0 ==> a * b <= 0.0
    ensures a >= 0.0 && b <= 0.0 ==> a * b <= 0.0
  {
  }

  /** A quotient of a part by a whole of the same sign lies in [0, 1]. */
  lemma FractionInUnit(t: real, d: real, e: real)
    requires d != 0.0 && t * d == e
    requires (0.0 <= e <= d) || (d <= e <= 0.0)
    ensures 0.0 <= t <= 1.0
  {
    MulSigns(t, d);
    assert (t - 1.0) * d == e - d;
    MulSigns(t - 1.0, d);
  }

  /** Like LineInterpol, but a zero-width segment gives y1 left of it, y2 right
      of it and the midpoint of the two ordinates on it. The result is always
      defined. */
  function LineInterpolSafeMiddleVal(x: real, x1: real, x2: real, y1: real, y2: real): (r: real)
    ensures x1 != x2 ==> LineInterpol(x, x1, x2, y1, y2) == Some(r)
    ensures x1 == x2 ==> Between(r, y1, y2)
    ensures x1 == x2 && x < x1 ==> r == y1
    ensures x1 == x2 && x > x2 ==> r == y2
    ensures x1 == x2 == x ==> r + r == y1 + y2
  {
    var dx := x2 - x1;
    if dx == 0.0 then
      if x < x1 then y1
      else if x > x2 then y2
      else (y1 + y2) / 2.0
    else
      y1 + (x - x1) * (y2 - y1) / (x2 - x1)
  }

  // ---------------------------------------------------------------------------
  // Statistics

  /** Index of the first smallest element, found by a left-to-right scan that
      moves only on a strict improvement. */
  function ArgMin(s: seq<real>): (k: nat)
    requires |s| > 0
    ensures k < |s|
    ensures forall j :: 0 <= j < |s| ==> s[k] <= s[j]
    ensures forall j :: 0 <= j < k ==> s[k] < s[j]
  {
    if |s| == 1 then 0
    else
      var k := ArgMin(s[..|s| - 1]);
      if s[|s| - 1] < s[k] then |s| - 1 else k
  }

  /** Index of the first largest element, found the same way. */
  function ArgMax(s: seq<real>): (k: nat)
    requires |s| > 0
    ensures k < |s|
    ensures forall j :: 0 <= j < |s| ==> s[j] <= s[k]
    ensures forall j :: 0 <= j < k ==> s[j] < s[k]
  {
    if |s| == 1 then 0
    else
      var k := ArgMax(s[..|s| - 1]);
      if s[|s| - 1] > s[k] then |s| - 1 else k
  }

  /** The statistics a tabulated function keeps about its points. */
  datatype Stat = Stat(
    MinX: real, MaxX: real, MinY: real, MaxY: real,
    x_ForMinY: real, x_ForMaxY: real,
    i_ForMinY: nat, i_ForMaxY: nat)

  /** All statistics zero, as after clearing. */
  const ZeroStat := Stat(0.0, 0.0, 0.0, 0.0, 0.0, 0.0, 0, 0)

  /** The statistics after a scan of `ps`, starting from `prev`. An empty table
      keeps `prev`. Otherwise the extremes are recomputed, but an index field
      is only written when the extreme is first reached past point 0: if point
      0 already holds the extreme, the index of `prev` survives. */
  function StatOf(ps: seq<SinglePoint>, prev: Stat): Stat
  {
    if ps == [] then prev
    else
      var xs, ys := Xs(ps), Ys(ps);
      var kMin, kMax := ArgMin(ys), ArgMax(ys);
      Stat(xs[ArgMin(xs)], xs[ArgMax(xs)], ys[kMin], ys[kMax],
           ps[kMin].x, ps[kMax].x,
           if kMin == 0 then prev.i_ForMinY else kMin,
           if kMax == 0 then prev.i_ForMaxY else kMax)
  }

  /** What the statistics mean: on an empty table nothing changes; otherwise
      the four extremes bound every point and are reached by some point, the
      recorded x belongs to the first point reaching each y extreme, and an
      index field names that point unless it is point 0. */
  lemma StatOfExtremes(ps: seq<SinglePoint>, prev: Stat)
    ensures var st := StatOf(ps, prev);
      && (ps == [] ==> st == prev)
      && (ps != [] ==>
        && (forall i :: 0 <= i < |ps| ==> st.MinX <= ps[i].x <= st.MaxX)
        && (forall i :: 0 <= i < |ps| ==> st.MinY <= ps[i].y <= st.MaxY)
        && (exists i :: 0 <= i < |ps| && ps[i].x == st.MinX)
        && (exists i :: 0 <= i < |ps| && ps[i].x == st.MaxX)
        && (exists i :: 0 <= i < |ps| && ps[i] == SinglePoint(st.x_ForMinY, st.MinY) &&
              (forall j :: 0 <= j < i ==> ps[j].y > st.MinY) &&
              st.i_ForMinY == (if i == 0 then prev.i_ForMinY else i))
        && (exists i :: 0 <= i < |ps| && ps[i] == SinglePoint(st.x_ForMaxY, st.MaxY) &&
              (forall j :: 0 <= j < i ==> ps[j].y < st.MaxY) &&
              st.i_ForMaxY == (if i == 0 then prev.i_ForMaxY else i)))
  {
    if ps != [] {
      var st := StatOf(ps, prev);
      var xs, ys := Xs(ps), Ys(ps);
      var kMin, kMax := ArgMin(ys), ArgMax(ys);
      assert ps[kMin] == SinglePoint(st.x_ForMinY, st.MinY);
      assert ps[kMax] == SinglePoint(st.x_ForMaxY, st.MaxY);
      assert forall j :: 0 <= j < kMin ==> ps[j].y > st.MinY by {
        forall j | 0 <= j < kMin ensures ps[j].y > st.MinY {
          assert ys[j] > ys[kMin];
        }
      }
      assert forall j :: 0 <= j < kMax ==> ps[j].y < st.MaxY by {
        forall j | 0 <= j < kMax ensures ps[j].y < st.MaxY {
          assert ys[j] < ys[kMax];
        }
      }
      assert ps[ArgMin(xs)].x == st.MinX;
      assert ps[ArgMax(xs)].x == st.MaxX;
      forall i | 0 <= i < |ps| ensures st.MinX <= ps[i].x <= st.MaxX && st.MinY <= ps[i].y <= st.MaxY {
        assert xs[i] == ps[i].x && ys[i] == ps[i].y;
      }
    }
  }

  /** Scanning the first point sets every extreme to it and keeps the
      previous index fields. */
  lemma StatOfFirst(ps: seq<SinglePoint>, prev: Stat)
    requires ps != []
    ensures StatOf(ps[..1], prev) ==
      Stat(ps[0].x, ps[0].x, ps[0].y, ps[0].y, ps[0].x, ps[0].x, prev.i_ForMinY, prev.i_ForMaxY)
  {
    assert Xs(ps[..1]) == [ps[0].x] && Ys(ps[..1]) == [ps[0].y];
  }

  /** One step of the scan: point `p` at index `i` widens the x range, and
      becomes the y minimum or maximum (with its x and index) only when it
      is strictly beyond it. */
  function StatStep(st: Stat, p: SinglePoint, i: nat): Stat
  {
    st.(MinX := if p.x < st.MinX then p.x else st.MinX,
        MaxX := if p.x > st.MaxX then p.x else st.MaxX,
        MinY := if p.y < st.MinY then p.y else st.MinY,
        x_ForMinY := if p.y < st.MinY then p.x else st.x_ForMinY,
        i_ForMinY := if p.y < st.MinY then i else st.i_ForMinY,
        MaxY := if p.y > st.MaxY then p.y else st.MaxY,
        x_ForMaxY := if p.y > st.MaxY then p.x else st.x_ForMaxY,
        i_ForMaxY := if p.y > st.MaxY then i else st.i_ForMaxY)
  }

  /** Scanning one more point is one `StatStep` on the statistics of the
      points before it. */
  lemma StatOfStep(ps: seq<SinglePoint>, i: nat, prev: Stat)
    requires 1 <= i < |ps|
    ensures StatOf(ps[..i + 1], prev) == StatStep(StatOf(ps[..i], prev), ps[i], i)
  {
    var a, b := ps[..i], ps[..i + 1];
    assert b[..i] == a;
    assert Xs(b)[..i] == Xs(a);
    assert Ys(b)[..i] == Ys(a);
  }

  /** Starting from cleared statistics, each index field is exactly the first
      index reaching its extreme. */
  lemma StatFromZeroIndexesFirstExtreme(ps: seq<SinglePoint>)
    requires ps != []
    ensures StatOf(ps, ZeroStat).i_ForMinY == ArgMin(Ys(ps))
    ensures StatOf(ps, ZeroStat).i_ForMaxY == ArgMax(Ys(ps))
    ensures forall j :: 0 <= j < StatOf(ps, ZeroStat).i_ForMinY ==> ps[j].y > StatOf(ps, ZeroStat).MinY
  {
    var st := StatOf(ps, ZeroStat);
    var k := ArgMin(Ys(ps));
    forall j | 0 <= j < st.i_ForMinY
      ensures ps[j].y > st.MinY
    {
      assert Ys(ps)[j] > Ys(ps)[k];
    }
  }

  // ---------------------------------------------------------------------------
  // Sorting by x

  /** Point `p` is the demo sample number `k` of `f`, taken from `a` in steps of `dx`. */
  predicate DemoSample(p: SinglePoint, k: nat, a: real, dx: real, f: real -> real)
  {
    p.x == a + (k as real) * dx && p.y == f(p.x)
  }

  /** `p` inserted before the first point whose x is not smaller. */
  function InsertByX(p: SinglePoint, s: seq<SinglePoint>): seq<SinglePoint>
  {
    if s == [] || p.x <= s[0].x then [p] + s
    else [s[0]] + InsertByX(p, s[1..])
  }

  /** Inserting adds exactly `p`. */
  lemma {:induction false} InsertByXPermutes(p: SinglePoint, s: seq<SinglePoint>)
    ensures multiset(InsertByX(p, s)) == multiset(s) + multiset{p}
  {
    if s != [] && p.x > s[0].x {
      assert s == [s[0]] + s[1..];
      InsertByXPermutes(p, s[1..]);
    }
  }

  /** A lower bound on x that holds for `p` and for `s` holds after inserting. */
  lemma {:induction false} InsertByXLowerBound(p: SinglePoint, s: seq<SinglePoint>, m: real)
    requires m <= p.x && forall i :: 0 <= i < |s| ==> m <= s[i].x
    ensures forall i :: 0 <= i < |InsertByX(p, s)| ==> m <= InsertByX(p, s)[i].x
  {
    if s != [] && p.x > s[0].x {
      InsertByXLowerBound(p, s[1..], m);
    }
  }

  /** Inserting keeps a sorted sequence sorted. */
  lemma {:induction false} InsertByXSorted(p: SinglePoint, s: seq<SinglePoint>)
    requires SortedByX(s)
    ensures SortedByX(InsertByX(p, s))
  {
    if s != [] && p.x > s[0].x {
      var u := s[1..];
      assert SortedByX(u) by {
        forall i, j | 0 <= i < j < |u| ensures u[i].x <= u[j].x {
          assert u[i] == s[i + 1] && u[j] == s[j + 1];
        }
      }
      InsertByXSorted(p, u);
      InsertByXLowerBound(p, u, s[0].x);
      var t := InsertByX(p, u);
      var r := [s[0]] + t;
      forall i, j | 0 <= i < j < |r| ensures r[i].x <= r[j].x {
        assert r[j] == t[j - 1];
        if i > 0 { assert r[i] == t[i - 1]; }
      }
    }
  }

  /** One ordering of `s` by x; std::sort may order points with equal x
      differently, so the class promises only sortedness and permutation. */
  function SortByX(s: seq<SinglePoint>): (r: seq<SinglePoint>)
    ensures SortedByX(r)
    ensures multiset(r) == multiset(s)
  {
    if s == [] then []
    else
      assert s == [s[0]] + s[1..];
      InsertByXPermutes(s[0], SortByX(s[1..]));
      InsertByXSorted(s[0], SortByX(s[1..]));
      InsertByX(s[0], SortByX(s[1..]))
  }

  // ---------------------------------------------------------------------------
  // Removing points with a repeated x (std::unique on x, then erase)

  /** std::unique's rule: each point is compared with the last point kept, and
      kept only if its x differs. */
  function UniqueAfter(last: SinglePoint, s: seq<SinglePoint>): seq<SinglePoint>
    decreases s
  {
    if s == [] then []
    else if s[0].x == last.x then UniqueAfter(last, s[1..])
    else [s[0]] + UniqueAfter(s[0], s[1..])
  }

  /** The points left by KillDuplicates: the first of every run of equal x. */
  function Unique(s: seq<SinglePoint>): seq<SinglePoint>
  {
    if s == [] then [] else [s[0]] + UniqueAfter(s[0], s[1..])
  }

  /** An independent description: a point is kept exactly when it starts a run,
      i.e. its x differs from the x of the point just before it. */
  function RunStartsAfter(prevX: real, s: seq<SinglePoint>): seq<SinglePoint>
    decreases s
  {
    if s == [] then []
    else (if s[0].x == prevX then [] else [s[0]]) + RunStartsAfter(s[0].x, s[1..])
  }

  /** The set of x values that occur in `s`. */
  function XSet(s: seq<SinglePoint>): set<real>
  {
    set p | p in s :: p.x
  }

  /** No two neighbours share an x. */
  predicate NoAdjacentDuplicates(s: seq<SinglePoint>)
  {
    forall i :: 0 <= i < |s| - 1 ==> s[i].x != s[i + 1].x
  }

  /** Comparing with the last kept point is the same as comparing with the
      previous point, because the two always share an x. */
  lemma {:induction false} UniqueAfterIsRunStarts(last: SinglePoint, s: seq<SinglePoint>)
    ensures UniqueAfter(last, s) == RunStartsAfter(last.x, s)
    decreases s
  {
    if s != [] {
      if s[0].x == last.x {
        UniqueAfterIsRunStarts(last, s[1..]);
      } else {
        UniqueAfterIsRunStarts(s[0], s[1..]);
      }
    }
  }

  /** KillDuplicates keeps the first point and then exactly the run starts. */
  lemma UniqueIsRunStarts(s: seq<SinglePoint>)
    requires s != []
    ensures Unique(s) == [s[0]] + RunStartsAfter(s[0].x, s[1..])
  {
    UniqueAfterIsRunStarts(s[0], s[1..]);
  }

  lemma {:induction false} UniqueAfterShape(last: SinglePoint, s: seq<SinglePoint>)
    ensures var r := UniqueAfter(last, s);
      && NoAdjacentDuplicates(r)
      && (r != [] ==> r[0].x != last.x)
      && multiset(r) <= multiset(s)
      && XSet(r) + {last.x} == XSet(s) + {last.x}
    decreases s
  {
    if s != [] {
      assert s == [s[0]] + s[1..];
      assert XSet(s) == {s[0].x} + XSet(s[1..]);
      if s[0].x == last.x {
        UniqueAfterShape(last, s[1..]);
      } else {
        UniqueAfterShape(s[0], s[1..]);
        var t := UniqueAfter(s[0], s[1..]);
        assert XSet([s[0]] + t) == {s[0].x} + XSet(t);
      }
    }
  }

  /** KillDuplicates leaves no two neighbours with equal x, keeps the first
      point, removes only points, and loses no x value. */
  lemma UniqueShape(s: seq<SinglePoint>)
    ensures var r := Unique(s);
      && NoAdjacentDuplicates(r)
      && |r| <= |s|
      && multiset(r) <= multiset(s)
      && XSet(r) == XSet(s)
      && (s != [] ==> r != [] && r[0] == s[0])
  {
    if s != [] {
      UniqueAfterShape(s[0], s[1..]);
      var t := UniqueAfter(s[0], s[1..]);
      assert s == [s[0]] + s[1..];
      assert XSet(s) == {s[0].x} + XSet(s[1..]);
      assert XSet([s[0]] + t) == {s[0].x} + XSet(t);
      assert |multiset(t)| <= |multiset(s[1..])| by {
        MultisetSubsetSize(multiset(t), multiset(s[1..]));
      }
    }
  }

  lemma MultisetSubsetSize<T>(a: multiset<T>, b: multiset<T>)
    requires a <= b
    ensures |a| <= |b|
  {
    assert b == a + (b - a);
  }

  /** Removing duplicates twice removes nothing more. */
  lemma {:induction false} UniqueAfterIdempotent(last: SinglePoint, s: seq<SinglePoint>)
    requires NoAdjacentDuplicates([last] + s)
    ensures UniqueAfter(last, s) == s
    decreases s
  {
    if s != [] {
      assert ([last] + s)[0].x != ([last] + s)[1].x;
      assert [s[0]] + s[1..] == s;
      assert NoAdjacentDuplicates([s[0]] + s[1..]) by {
        forall i | 0 <= i < |s| - 1 ensures s[i].x != s[i + 1].x {
          assert ([last] + s)[i + 1] == s[i];
          assert ([last] + s)[i + 2] == s[i + 1];
        }
      }
      UniqueAfterIdempotent(s[0], s[1..]);
    }
  }

  lemma UniqueIdempotent(s: seq<SinglePoint>)
    ensures Unique(Unique(s)) == Unique(s)
  {
    UniqueShape(s);
    var r := Unique(s);
    if r != [] {
      assert [r[0]] + r[1..] == r;
      UniqueAfterIdempotent(r[0], r[1..]);
    }
  }

  lemma {:induction false} UniqueAfterSorted(last: SinglePoint, s: seq<SinglePoint>)
    requires SortedByX(s)
    requires forall i :: 0 <= i < |s| ==> last.x <= s[i].x
    ensures var r := UniqueAfter(last, s);
      StrictlyIncreasingX(r) && forall i :: 0 <= i < |r| ==> last.x < r[i].x
    decreases s
  {
    if s != [] {
      if s[0].x == last.x {
        UniqueAfterSorted(last, s[1..]);
      } else {
        UniqueAfterSorted(s[0], s[1..]);
        var t := UniqueAfter(s[0], s[1..]);
        var r := [s[0]] + t;
        forall i, j | 0 <= i < j < |r| ensures r[i].x < r[j].x {
          if i > 0 {
            assert r[i] == t[i - 1] && r[j] == t[j - 1];
          } else {
            assert r[j] == t[j - 1];
          }
        }
      }
    }
  }

  /** After Sort, KillDuplicates leaves the x values strictly increasing. */
  lemma UniqueOfSortedIsStrict(s: seq<SinglePoint>)
    requires SortedByX(s)
    ensures StrictlyIncreasingX(Unique(s))
  {
    if s != [] {
      UniqueAfterSorted(s[0], s[1..]);
      var t := UniqueAfter(s[0], s[1..]);
      var r := [s[0]] + t;
      forall i, j | 0 <= i < j < |r| ensures r[i].x < r[j].x {
        if i > 0 {
          assert r[i] == t[i - 1] && r[j] == t[j - 1];
        } else {
          assert r[j] == t[j - 1];
        }
      }
    }
  }

  lemma StrictTail(r: seq<SinglePoint>)
    requires StrictlyIncreasingX(r) && r != []
    ensures StrictlyIncreasingX(r[1..])
    ensures r[0].x !in XSet(r[1..])
  {
    var t := r[1..];
    forall i, j | 0 <= i < j < |t| ensures t[i].x < t[j].x {
      assert t[i] == r[i + 1] && t[j] == r[j + 1];
    }
    forall p | p in t ensures p.x != r[0].x {
      var i :| 0 <= i < |t| && t[i] == p;
      assert r[i + 1] == p;
    }
  }

  lemma {:induction false} StrictXSetSize(r: seq<SinglePoint>)
    requires StrictlyIncreasingX(r)
    ensures |XSet(r)| == |r|
  {
    if r != [] {
      var t := r[1..];
      StrictTail(r);
      StrictXSetSize(t);
      assert r == [r[0]] + t;
      assert XSet(r) == {r[0].x} + XSet(t);
    }
  }

  /** After Sort, KillDuplicates leaves one point per distinct x. */
  lemma UniqueOfSortedCount(s: seq<SinglePoint>)
    requires SortedByX(s)
    ensures |Unique(s)| == |XSet(s)|
  {
    UniqueOfSortedIsStrict(s);
    UniqueShape(s);
    StrictXSetSize(Unique(s));
  }

  // ---------------------------------------------------------------------------
  // Lookups

  /** The first point whose x is not below `x`. On points ordered by x this
      is the position std::lower_bound returns; on unordered points
      std::lower_bound promises nothing, so its callers here ask for order. */
  function LowerBound(ps: seq<SinglePoint>, x: real): (k: nat)
    ensures k <= |ps|
    ensures forall i :: 0 <= i < k ==> ps[i].x < x
    ensures k < |ps| ==> x <= ps[k].x
    ensures SortedByX(ps) ==> forall i :: k <= i < |ps| ==> x <= ps[i].x
  {
    if ps == [] || !(ps[0].x < x) then 0
    else
      var k := 1 + LowerBound(ps[1..], x);
      assert forall i :: 1 <= i < |ps| ==> ps[i] == ps[1..][i - 1];
      k
  }

  /** The cursor the binary-search lookup leaves behind. */
  function BSearchCache(ps: seq<SinglePoint>, x: real): (c: nat)
    requires |ps| >= 2
    ensures c < |ps|
    ensures x <= ps[0].x ==> c == 0
    ensures (forall i :: 0 <= i < |ps| ==> ps[i].x < x) ==> c == |ps| - 1
    ensures ps[0].x < x && (exists i :: 0 <= i < |ps| && x <= ps[i].x) ==>
      c + 1 < |ps| && ps[c].x < x <= ps[c + 1].x
  {
    var k := LowerBound(ps, x);
    if k == 0 then 0 else if k == |ps| then |ps| - 1 else k - 1
  }

  /** The value interpolated on the segment from point `s` to point `s + 1`. */
  function SegmentValue(ps: seq<SinglePoint>, s: nat, x: real): Option<real>
    requires s + 1 < |ps|
  {
    LineInterpol(x, ps[s].x, ps[s + 1].x, ps[s].y, ps[s + 1].y)
  }

  /** The value of the binary-search lookup: the segment that contains `x`,
      or the first or last segment when `x` lies outside the table. */
  function BSearchValue(ps: seq<SinglePoint>, x: real): Option<real>
    requires |ps| >= 2
  {
    var c := BSearchCache(ps, x);
    SegmentValue(ps, if c < |ps| - 2 then c else |ps| - 2, x)
  }

  /** The first index from `i` on whose point lies strictly right of `x`, or
      |ps| when there is none. */
  function UpperFrom(ps: seq<SinglePoint>, i: nat, x: real): (m: nat)
    requires i <= |ps|
    ensures i <= m <= |ps|
    ensures forall k :: i <= k < m ==> ps[k].x <= x
    ensures m < |ps| ==> x < ps[m].x
    decreases |ps| - i
  {
    if i == |ps| || x < ps[i].x then i else UpperFrom(ps, i + 1, x)
  }

  /** A scan that stopped at `m` after seeing only points not right of `x`
      found exactly UpperFrom. */
  lemma {:induction false} UpperFromFound(ps: seq<SinglePoint>, i: nat, m: nat, x: real)
    requires i <= m <= |ps|
    requires forall k :: i <= k < m ==> ps[k].x <= x
    requires m < |ps| ==> x < ps[m].x
    ensures UpperFrom(ps, i, x) == m
    decreases m - i
  {
    if i < m {
      UpperFromFound(ps, i + 1, m, x);
    }
  }

  /** The value of the rightward cursor scan started at cursor `c`. */
  function RightScanValue(ps: seq<SinglePoint>, c: nat, x: real): Option<real>
    requires |ps| >= 2 && c < |ps|
  {
    if x < ps[c].x then Some(ps[c].y)
    else
      var m := UpperFrom(ps, c, x);
      if m < |ps| then SegmentValue(ps, m - 1, x) else SegmentValue(ps, |ps| - 2, x)
  }

  /** The end of the window the leftward scan looks at. */
  function LeftScanLimit(c: nat, n: nat): nat
  {
    if c + 2 < n then c + 2 else n
  }

  /** The value of the leftward scan with cursor `c`: it interpolates only on
      a segment that ends before the window limit and otherwise returns the
      ordinate of the cursor's point. */
  function LeftScanValue(ps: seq<SinglePoint>, c: nat, x: real): Option<real>
    requires |ps| >= 2 && c < |ps|
  {
    if x < ps[0].x then SegmentValue(ps, 0, x)
    else
      var m := UpperFrom(ps, 1, x);
      if m < LeftScanLimit(c, |ps|) then SegmentValue(ps, m - 1, x) else Some(ps[c].y)
  }

  /** On strictly increasing points the binary-search lookup passes through
      every sample. */
  lemma BSearchValueAtKnot(ps: seq<SinglePoint>, m: nat)
    requires |ps| >= 2 && m < |ps| && StrictlyIncreasingX(ps)
    ensures BSearchValue(ps, ps[m].x) == Some(ps[m].y)
  {
    var x := ps[m].x;
    assert forall i :: 0 <= i < m ==> ps[i].x < x;
    assert LowerBound(ps, x) == m;
  }

  /** Below the last point, on strictly increasing points, LowerBound and
      the first point strictly right of x differ by at most one, and by one
      exactly when x is a sample. */
  lemma BoundsOnStrict(ps: seq<SinglePoint>, i: nat, x: real)
    requires StrictlyIncreasingX(ps) && i <= |ps|
    requires forall k :: 0 <= k < i ==> ps[k].x <= x
    ensures var lb, ub := LowerBound(ps, x), UpperFrom(ps, i, x);
      && i <= ub
      && (lb == ub || (lb + 1 == ub && ps[lb].x == x))
  {
    var lb, ub := LowerBound(ps, x), UpperFrom(ps, i, x);
    assert forall k :: 0 <= k < ub ==> ps[k].x <= x;
    if lb < ub {
      assert ps[lb].x == x;
      if lb + 1 < |ps| {
        assert x < ps[lb + 1].x;
      }
    }
  }

  /** The rightward cursor scan agrees with the binary search whenever the
      cursor's point is not right of `x`: the cursor is only a hint. */
  lemma RightScanAgreesWithBSearch(ps: seq<SinglePoint>, c: nat, x: real)
    requires |ps| >= 2 && c < |ps| && StrictlyIncreasingX(ps)
    requires ps[c].x <= x
    ensures RightScanValue(ps, c, x) == BSearchValue(ps, x)
  {
    forall k | 0 <= k < c ensures ps[k].x <= x {
      assert ps[k].x < ps[c].x;
    }
    BoundsOnStrict(ps, c, x);
    var lb, ub := LowerBound(ps, x), UpperFrom(ps, c, x);
    var n := |ps|;
    if ub < n {
      if lb + 1 == ub && 0 < lb {
        // x is the sample lb: both segments end or start there
        assert SegmentValue(ps, lb, x) == Some(ps[lb].y);
        assert SegmentValue(ps, lb - 1, x) == Some(ps[lb].y);
      }
    } else {
      if lb == n - 1 {
        assert SegmentValue(ps, n - 2, x) == Some(ps[n - 1].y);
      }
    }
  }

  /** The leftward scan agrees with the binary search whenever the segment
      holding `x` ends inside its window. */
  lemma LeftScanAgreesWithBSearch(ps: seq<SinglePoint>, c: nat, x: real)
    requires |ps| >= 2 && c < |ps| && StrictlyIncreasingX(ps)
    requires x < ps[0].x || UpperFrom(ps, 1, x) < LeftScanLimit(c, |ps|)
    ensures LeftScanValue(ps, c, x) == BSearchValue(ps, x)
  {
    if x >= ps[0].x {
      BoundsOnStrict(ps, 1, x);
      var lb, ub := LowerBound(ps, x), UpperFrom(ps, 1, x);
      if lb + 1 == ub && 0 < lb {
        assert SegmentValue(ps, lb, x) == Some(ps[lb].y);
        assert SegmentValue(ps, lb - 1, x) == Some(ps[lb].y);
      }
    }
  }

  // ---------------------------------------------------------------------------
  // The points of tests.cpp:52-56 and what Sort, KillDuplicates and CalcStat
  // make of them

  /** Five points, the fourth repeating the x of the first. */
  const TestPoints: seq<SinglePoint> := [
    SinglePoint(-1.0, 0.5), SinglePoint(1.0, -0.125), SinglePoint(0.0, 1.5),
    SinglePoint(-1.0, 0.75), SinglePoint(2.0, 0.25)]

  /** Two sequences holding the same points hold the same x values. */
  lemma SameMultisetSameXSet(a: seq<SinglePoint>, b: seq<SinglePoint>)
    requires multiset(a) == multiset(b)
    ensures XSet(a) == XSet(b)
  {
    forall v | v in XSet(a) ensures v in XSet(b) {
      var p :| p in a && p.x == v;
      assert p in multiset(a);
    }
    forall v | v in XSet(b) ensures v in XSet(a) {
      var p :| p in b && p.x == v;
      assert p in multiset(b);
    }
  }

  lemma TestPointsXSet()
    ensures XSet(TestPoints) == {-1.0, 0.0, 1.0, 2.0}
  {
    var s := {-1.0, 0.0, 1.0, 2.0};
    forall v | v in XSet(TestPoints) ensures v in s {
      var p :| p in TestPoints && p.x == v;
    }
    forall v | v in s ensures v in XSet(TestPoints) {
      if v == -1.0 { assert TestPoints[0] in TestPoints; }
      else if v == 1.0 { assert TestPoints[1] in TestPoints; }
      else if v == 0.0 { assert TestPoints[2] in TestPoints; }
      else { assert TestPoints[4] in TestPoints; }
    }
  }

  /** Whatever order Sort chooses for the two points at x = -1, KillDuplicates
      leaves four points. */
  lemma TestPointsLeaveFour(s: seq<SinglePoint>)
    requires SortedByX(s) && multiset(s) == multiset(TestPoints)
    ensures |Unique(s)| == 4
  {
    UniqueOfSortedCount(s);
    SameMultisetSameXSet(s, TestPoints);
    TestPointsXSet();
  }

  /** CalcStat on the four points left, whichever of the two ordinates at
      x = -1 survived: the minimum of y sits at index 2 and the maximum at
      index 1. */
  lemma TestPointsStat(y0: real, prev: Stat)
    requires -0.125 < y0 < 1.5
    ensures var st := StatOf([SinglePoint(-1.0, y0), SinglePoint(0.0, 1.5),
                              SinglePoint(1.0, -0.125), SinglePoint(2.0, 0.25)], prev);
      && st.MinX == -1.0 && st.MaxX == 2.0
      && st.MinY == -0.125 && st.MaxY == 1.5
      && st.x_ForMinY == 1.0 && st.x_ForMaxY == 0.0
      && st.i_ForMinY == 2 && st.i_ForMaxY == 1
  {
    var ps := [SinglePoint(-1.0, y0), SinglePoint(0.0, 1.5),
               SinglePoint(1.0, -0.125), SinglePoint(2.0, 0.25)];
    var ys := Ys(ps);
    assert ys == [y0, 1.5, -0.125, 0.25];
    assert ArgMin(ys) == 2;
    var kMax := ArgMax(ys);
    assert ys[kMax] >= ys[1];
    assert kMax == 1;
    var xs := Xs(ps);
    assert xs == [-1.0, 0.0, 1.0, 2.0];
    var kLo, kHi := ArgMin(xs), ArgMax(xs);
    assert xs[kLo] <= xs[0] && xs[kHi] >= xs[3];
    assert kLo == 0 && kHi == 3;
  }

  /** After Sort, KillDuplicates keeps four of the test points, in strictly
      increasing x. */
  lemma TestRunKept(s: seq<SinglePoint>)
    requires SortedByX(s) && multiset(s) == multiset(TestPoints)
    ensures var r := Unique(s);
      |r| == 4 && StrictlyIncreasingX(r) && forall i :: 0 <= i < 4 ==> r[i] in TestPoints
  {
    var r := Unique(s);
    TestPointsLeaveFour(s);
    UniqueOfSortedIsStrict(s);
    UniqueShape(s);
    forall i | 0 <= i < 4 ensures r[i] in TestPoints {
      assert r[i] in multiset(r);
    }
  }

  /** Four test points in strictly increasing x are the points at -1, 0, 1
      and 2, with either ordinate at -1. */
  lemma TestPointsInOrder(r: seq<SinglePoint>)
    requires |r| == 4 && StrictlyIncreasingX(r)
    requires forall i :: 0 <= i < 4 ==> r[i] in TestPoints
    ensures r == [SinglePoint(-1.0, r[0].y), SinglePoint(0.0, 1.5),
                  SinglePoint(1.0, -0.125), SinglePoint(2.0, 0.25)]
    ensures r[0].y == 0.5 || r[0].y == 0.75
  {
    assert r[0].x < r[1].x < r[2].x < r[3].x;
    assert r[0].x == -1.0 && r[1].x == 0.0 && r[2].x == 1.0 && r[3].x == 2.0;
  }

  /** Sort, KillDuplicates and CalcStat on the five test points, whichever
      order Sort gives the two points at x = -1: four points are left, the
      minimum of y sits at index 2 and the maximum at index 1. */
  lemma TestRunStat(s: seq<SinglePoint>, prev: Stat)
    requires SortedByX(s) && multiset(s) == multiset(TestPoints)
    ensures |Unique(s)| == 4
    ensures var st := StatOf(Unique(s), prev);
      && st.MinX == -1.0 && st.MaxX == 2.0
      && st.MinY == -0.125 && st.MaxY == 1.5
      && st.x_ForMinY == 1.0 && st.x_ForMaxY == 0.0
      && st.i_ForMinY == 2 && st.i_ForMaxY == 1
  {
    var r := Unique(s);
    TestRunKept(s);
    TestPointsInOrder(r);
    TestPointsStat(r[0].y, prev);
  }

  /** The statistics the test expects at its end, as its checks are written. */
  predicate TestExpectationsAsWritten(st: Stat)
  {
    && st.MinX == -1.0 && st.MaxX == 2.0
    && st.MinY == -0.125 && st.MaxY == 1.5
    && st.x_ForMinY == 1.0 && st.x_ForMaxY == 0.0
    && st.i_ForMinY == 1 && st.i_ForMaxY == 2
  }

  /** The test's expected indices are never met: on every order Sort may
      give, the statistics differ from what the test checks. */
  lemma TestExpectationsFail(s: seq<SinglePoint>, prev: Stat)
    requires SortedByX(s) && multiset(s) == multiset(TestPoints)
    ensures !TestExpectationsAsWritten(StatOf(Unique(s), prev))
  {
    TestRunStat(s, prev);
  }
}
