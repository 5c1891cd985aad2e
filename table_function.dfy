/** The tabulated function of UnitTableFunctions.cpp: an ordered buffer of
    (x, y) points, the statistics kept about them, and a cursor `iCache` that
    the lookups move (the source declares it mutable, so even its const
    lookups write it). */
module TableFunctions {
  import opened Samples
  import opened TableSpec

  class TableFunction {
    var Points: seq<SinglePoint>
    var MinX: real
    var MaxX: real
    var MinY: real
    var MaxY: real
    var x_ForMinY: real
    var x_ForMaxY: real
    var i_ForMinY: nat
    var i_ForMaxY: nat
    var iCache: nat
    var Name: string

    /** The statistics fields, taken together. */
    function Stats(): Stat
      reads this
    {
      Stat(MinX, MaxX, MinY, MaxY, x_ForMinY, x_ForMaxY, i_ForMinY, i_ForMaxY)
    }

    /** operator[]: the coordinates of point `i`; the cursor moves to `i`. */
    method At(i: nat) returns (x: real, y: real)
      requires i < |Points|
      modifies this`iCache
      ensures iCache == i
      ensures x == Points[i].x && y == Points[i].y
    {
      iCache := i;
      x, y := Points[i].x, Points[i].y;
    }

    /** Interpolation on the segment found by std::lower_bound, which asks for
        points ordered by x. Fewer than two points give 0 and leave the cursor
        alone. */
    method GetValByBSearchFromX(x: real) returns (r: Option<real>)
      requires SortedByX(Points)
      modifies this`iCache
      ensures |Points| < 2 ==> r == Some(0.0) && iCache == old(iCache)
      ensures |Points| >= 2 ==> iCache == BSearchCache(Points, x) && r == BSearchValue(Points, x)
    {
      if |Points| < 2 {
        return Some(0.0);
      }
      var n := |Points|;
      var k := LowerBound(Points, x);
      if k == 0 {
        iCache := 0;
        r := LineInterpol(x, Points[0].x, Points[1].x, Points[0].y, Points[1].y);
      } else if k == n {
        iCache := n - 1;
        r := LineInterpol(x, Points[n - 2].x, Points[n - 1].x, Points[n - 2].y, Points[n - 1].y);
      } else {
        iCache := k - 1;
        r := LineInterpol(x, Points[k - 1].x, Points[k].x, Points[k - 1].y, Points[k].y);
      }
    }

    /** Scans right from the cursor for the first point strictly right of `x`
        and interpolates on the segment ending there; past the last point it
        extrapolates on the last segment, and left of the cursor's point it
        returns that point's ordinate without moving. */
    method GetValFromRightX(x: real) returns (r: Option<real>)
      requires |Points| < 2 || iCache < |Points|
      modifies this`iCache
      ensures |Points| < 2 ==> r == Some(0.0) && iCache == old(iCache)
      ensures |Points| >= 2 ==> iCache < |Points| && r == RightScanValue(Points, old(iCache), x)
      ensures |Points| >= 2 && x < Points[old(iCache)].x ==>
        iCache == old(iCache) && r == Some(Points[iCache].y)
      ensures |Points| >= 2 && Points[old(iCache)].x <= x ==>
        iCache + 1 == UpperFrom(Points, old(iCache), x)
    {
      if |Points| < 2 {
        return Some(0.0);
      }
      if x < Points[iCache].x {
        return Some(Points[iCache].y);
      }
      var n := |Points|;
      for i := iCache to n
        invariant iCache == old(iCache)
        invariant forall k :: iCache <= k < i ==> Points[k].x <= x
      {
        if x < Points[i].x {
          UpperFromFound(Points, iCache, i, x);
          iCache := i - 1;
          return LineInterpol(x, Points[i - 1].x, Points[i].x, Points[i - 1].y, Points[i].y);
        }
      }
      UpperFromFound(Points, iCache, n, x);
      iCache := n - 1;
      r := LineInterpol(x, Points[n - 2].x, Points[n - 1].x, Points[n - 2].y, Points[n - 1].y);
    }

    /** Left of the first point it extrapolates on the first segment;
        otherwise it scans from point 1 up to two places past the cursor for
        the first point strictly right of `x`, and when the window holds none
        it returns the ordinate of the cursor's point. */
    method GetValFromLeftX(x: real) returns (r: Option<real>)
      requires |Points| < 2 || iCache < |Points|
      modifies this`iCache
      ensures |Points| < 2 ==> r == Some(0.0) && iCache == old(iCache)
      ensures |Points| >= 2 ==> iCache < |Points| && r == LeftScanValue(Points, old(iCache), x)
      ensures |Points| >= 2 && x < Points[0].x ==> iCache == 0
      ensures |Points| >= 2 && Points[0].x <= x ==>
        var m := UpperFrom(Points, 1, x);
        if m < LeftScanLimit(old(iCache), |Points|) then iCache + 1 == m
        else iCache == old(iCache) && r == Some(Points[iCache].y)
    {
      if |Points| < 2 {
        return Some(0.0);
      }
      if x < Points[0].x {
        iCache := 0;
        return LineInterpol(x, Points[0].x, Points[1].x, Points[0].y, Points[1].y);
      }
      var n := if iCache + 2 < |Points| then iCache + 2 else |Points|;
      for i := 1 to n
        invariant iCache == old(iCache)
        invariant forall k :: 1 <= k < i ==> Points[k].x <= x
      {
        if x < Points[i].x {
          UpperFromFound(Points, 1, i, x);
          iCache := i - 1;
          return LineInterpol(x, Points[i - 1].x, Points[i].x, Points[i - 1].y, Points[i].y);
        }
      }
      r := Some(Points[iCache].y);
    }

    /** Empties the table and zeroes every statistic, the cursor and the name. */
    method ClearAll()
      modifies this
      ensures Points == [] && Stats() == ZeroStat && iCache == 0 && Name == ""
    {
      Points := [];
      MinX, MaxX := 0.0, 0.0;
      MinY, MaxY := 0.0, 0.0;
      x_ForMinY, x_ForMaxY := 0.0, 0.0;
      i_ForMinY, i_ForMaxY := 0, 0;
      iCache := 0;
      Name := "";
    }

    /** Replaces the ordinate of point `i`. */
    method SetValAtPoint(i: nat, y: real)
      requires i < |Points|
      modifies this`Points
      ensures |Points| == |old(Points)| && Points[i] == SinglePoint(old(Points)[i].x, y)
      ensures forall k :: 0 <= k < |Points| && k != i ==> Points[k] == old(Points)[k]
    {
      Points := Points[i := SinglePoint(Points[i].x, y)];
    }

    /** Replaces point `i` by `point`. */
    method SetPointByNumber(i: nat, point: (real, real))
      requires i < |Points|
      modifies this`Points
      ensures |Points| == |old(Points)| && Points[i] == SinglePoint(point.0, point.1)
      ensures forall k :: 0 <= k < |Points| && k != i ==> Points[k] == old(Points)[k]
    {
      Points := Points[i := SinglePoint(point.0, point.1)];
    }

    /** A cleared table of `n` points at the origin, named `name`. */
    method CreateNewFunction(n: nat, name: string)
      modifies this
      ensures |Points| == n && forall k :: 0 <= k < n ==> Points[k] == SinglePoint(0.0, 0.0)
      ensures Stats() == ZeroStat && iCache == 0 && Name == name
    {
      ClearAll();
      for i := 0 to n
        invariant |Points| == i && forall k :: 0 <= k < i ==> Points[k] == SinglePoint(0.0, 0.0)
        invariant Stats() == ZeroStat && iCache == 0
      {
        Points := Points + [SinglePoint(0.0, 0.0)];
      }
      Name := name;
    }

    /** A cleared table of `n` samples of `f` at a, a + dx, a + 2 dx, ...,
        with its statistics computed and named `name`. */
    method CreateDemoFunction(n: nat, a: real, dx: real, f: real -> real, name: string)
      modifies this
      ensures |Points| == n
      ensures forall k :: 0 <= k < n ==> DemoSample(Points[k], k, a, dx, f)
      ensures Stats() == StatOf(Points, ZeroStat)
      ensures n > 0 ==> i_ForMinY == ArgMin(Ys(Points)) && i_ForMaxY == ArgMax(Ys(Points))
      ensures iCache == 0 && Name == name
    {
      ClearAll();
      for i := 0 to n
        invariant |Points| == i
        invariant forall k :: 0 <= k < i ==> DemoSample(Points[k], k, a, dx, f)
        invariant Stats() == ZeroStat && iCache == 0
      {
        var x := a + (i as real) * dx;
        Points := Points + [SinglePoint(x, f(x))];
      }
      CalcStat();
      if n > 0 {
        StatFromZeroIndexesFirstExtreme(Points);
      }
      Name := name;
    }

    /** std::unique by x followed by erase: keeps the first point of every run
        of equal x. */
    method KillDuplicates()
      modifies this`Points
      ensures Points == Unique(old(Points))
      ensures NoAdjacentDuplicates(Points) && XSet(Points) == XSet(old(Points))
      ensures multiset(Points) <= multiset(old(Points))
      ensures SortedByX(old(Points)) ==> StrictlyIncreasingX(Points)
    {
      UniqueShape(Points);
      if SortedByX(Points) {
        UniqueOfSortedIsStrict(Points);
      }
      Points := Unique(Points);
    }

    /** std::sort by x: some ordering of the same points by x. */
    method Sort()
      modifies this`Points
      ensures SortedByX(Points)
      ensures multiset(Points) == multiset(old(Points))
    {
      Points := SortByX(Points);
    }

    /** The extremes of x and y over the points, and the x and index of the
        first point reaching each y extreme. An empty table changes nothing,
        and an index field is left as it was when point 0 holds its extreme. */
    method CalcStat()
      modifies this`MinX, this`MaxX, this`MinY, this`MaxY,
        this`x_ForMinY, this`x_ForMaxY, this`i_ForMinY, this`i_ForMaxY
      ensures Stats() == StatOf(Points, old(Stats()))
    {
      if |Points| == 0 {
        return;
      }
      ghost var prev := Stats();
      var st := Stat(Points[0].x, Points[0].x, Points[0].y, Points[0].y,
        Points[0].x, Points[0].x, i_ForMinY, i_ForMaxY);
      StatOfFirst(Points, prev);
      for i := 1 to |Points|
        invariant st == StatOf(Points[..i], prev)
      {
        StatOfStep(Points, i, prev);
        var p := Points[i];
        if p.x > st.MaxX {
          st := st.(MaxX := p.x);
        }
        if p.x < st.MinX {
          st := st.(MinX := p.x);
        }
        if p.y > st.MaxY {
          st := st.(MaxY := p.y, x_ForMaxY := p.x, i_ForMaxY := i);
        }
        if p.y < st.MinY {
          st := st.(MinY := p.y, x_ForMinY := p.x, i_ForMinY := i);
        }
      }
      assert Points[..|Points|] == Points;
      MinX, MaxX, MinY, MaxY := st.MinX, st.MaxX, st.MinY, st.MaxY;
      x_ForMinY, x_ForMaxY, i_ForMinY, i_ForMaxY := st.x_ForMinY, st.x_ForMaxY, st.i_ForMinY, st.i_ForMaxY;
    }
  }
}
