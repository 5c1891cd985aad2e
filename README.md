# tf_gd_lib in Dafny

A model of the numerical core of tf_gd_lib, a small C++ library with three parts:

- a **tabulated function**: a buffer of (x, y) points with lookups by interpolation, sorting, duplicate removal and statistics;
- the **cubic spline** through such points. Its second derivative is 0 at the first knot. At the last knot the system is closed by the last inner knot's equation shifted one place right, which is not the natural end condition;
- an **adaptive per-axis gradient descent**. It fits the parameters of a model to the points, or minimises a user cost, within box bounds.

Doubles are modelled as reals. A result the source would produce as a NaN or an infinity is either `None` (`Samples.Option`) or, in the optimizer and the spline, the value of `Samples.Quot`, which is 0 for a zero divisor.

Modules:

- `Samples` (`samples.dfy`): the point type, `Option`, `Quot`, and the sortedness predicates.
- `TableSpec` (`table_spec.dfy`): functions that define what the table operations compute (`LineInterpol`, `StatOf`, `SortByX`, `Unique`, the three lookups) and the lemmas about them.
- `TableFunctions` (`table_function.dfy`): class `TableFunction`. Its fields are the point buffer, the statistics, the lookup cursor `iCache` and the name. Each method is proved against `TableSpec`.
- `Spline` (`spline.dfy`): the tridiagonal moment system, the sweep/back-substitution solve and the lemmas that it solves the system and interpolates; class `CubicSpline` holds the pieces.
- `GradSpec` (`grad_spec.dfy`): one run of the optimizer as functions of a configuration and an objective. It covers the cost, the finite-difference gradient, the clipped accept/reject update of one axis, a sweep over the axes, one iteration and `k` iterations.
- `GradDescentEngine` (`grad_descent.dfy`): class `GradDescent` with the source's fields. `Go` and the pieces it is split into are proved to leave the state `Iterates` gives after `LastIters` iterations, with the status the loop's exits promise.

Where the code and its test disagree, the model follows the code. After `Sort`, `KillDuplicates` and `CalcStat` on the five test points, the code leaves `i_ForMinY == 2` and `i_ForMaxY == 1`, whichever order `Sort` gives the two points at x = -1 (`TableSpec.TestRunStat`). The test at tests.cpp:81-82 expects 1 and 2 (see "## Findings"). The test reads them through `Get_i_ForMinY()` and `Get_i_ForMaxY()`, which are declared in a header that is not part of this model; the finding takes each getter to return the field it is named after.

## Model

| member | source | states |
|---|---|---|
| TableSpec.LineInterpol | UnitTableFunctions.cpp:15-18 | defined exactly when x1 != x2; passes through (x1, y1) and (x2, y2); for x between the two abscissae the value lies between the two ordinates |
| TableSpec.LineStaysBetween | UnitTableFunctions.cpp:15-18 | the interpolation formula stays between y1 and y2 while x stays between x1 and x2 |
| TableSpec.LineInterpolSafeMiddleVal | UnitTableFunctions.cpp:21-35 | equals LineInterpol when x1 != x2; on a zero-width segment gives y1 left of it, y2 right of it and the mean at it |
| TableSpec.ArgMin | UnitTableFunctions.cpp:242-247 | the index a strict `<` scan keeps: a smallest element with every earlier element strictly larger |
| TableSpec.ArgMax | UnitTableFunctions.cpp:235-240 | the index a strict `>` scan keeps: a largest element with every earlier element strictly smaller |
| TableSpec.StatOfExtremes | UnitTableFunctions.cpp:217-249 | on an empty table nothing changes; otherwise MinX/MaxX and MinY/MaxY bound every point and are attained, and x_ForMinY/x_ForMaxY and the index fields belong to the first point reaching each y extreme (the index is left as it was when that point is point 0) |
| TableSpec.StatOfFirst | UnitTableFunctions.cpp:222-225 | the first point sets every extreme and both x fields, and the index fields keep their old values |
| TableSpec.StatOfStep | UnitTableFunctions.cpp:227-248 | scanning one more point is one loop step on the statistics so far |
| TableSpec.StatFromZeroIndexesFirstExtreme | UnitTableFunctions.cpp:217-249 | from cleared statistics the index fields are exactly the first arg-min and arg-max of the ordinates |
| TableSpec.InsertByXPermutes | UnitTableFunctions.cpp:208-214 | inserting a point adds exactly that point to the multiset |
| TableSpec.InsertByXLowerBound | UnitTableFunctions.cpp:208-214 | a lower bound on x for the point and the sequence holds after inserting |
| TableSpec.InsertByXSorted | UnitTableFunctions.cpp:208-214 | inserting keeps a sequence sorted by x |
| TableSpec.SortByX | UnitTableFunctions.cpp:208-214 | the result is sorted by x and is a permutation of the input |
| TableSpec.UniqueAfterIsRunStarts | UnitTableFunctions.cpp:197-205 | comparing with the last point kept (std::unique's rule) keeps exactly the points whose x differs from their predecessor's |
| TableSpec.UniqueIsRunStarts | UnitTableFunctions.cpp:197-205 | duplicate removal keeps the first point and then the start of every run of equal x |
| TableSpec.UniqueAfterShape | UnitTableFunctions.cpp:197-205 | the tail kept has no equal neighbours, is a sub-multiset and loses no x value |
| TableSpec.UniqueShape | UnitTableFunctions.cpp:197-205 | after duplicate removal no neighbours share an x; the result is no longer, is a sub-multiset, has the same set of x values and starts with the same point |
| TableSpec.UniqueAfterIdempotent | UnitTableFunctions.cpp:197-205 | a tail with no equal neighbours is kept whole |
| TableSpec.UniqueIdempotent | UnitTableFunctions.cpp:197-205 | removing duplicates twice removes nothing more |
| TableSpec.UniqueAfterSorted | UnitTableFunctions.cpp:197-205 | on a sorted tail the points kept increase strictly in x |
| TableSpec.UniqueOfSortedIsStrict | UnitTableFunctions.cpp:197-214 | after Sort, KillDuplicates leaves strictly increasing x |
| TableSpec.UniqueOfSortedCount | UnitTableFunctions.cpp:197-214 | after Sort, KillDuplicates leaves one point per distinct x |
| TableSpec.LowerBound | UnitTableFunctions.cpp:53-56 | the first index whose x is not below the key: every earlier x is below it, and on sorted points every later x is not, which is std::lower_bound's answer there |
| TableSpec.BSearchCache | UnitTableFunctions.cpp:58-75 | the cursor is 0 at or left of the first point, the last index right of every point, and otherwise the left end of the segment with ps[c].x < x <= ps[c+1].x |
| TableSpec.BSearchValueAtKnot | UnitTableFunctions.cpp:46-77 | on strictly increasing points the binary-search lookup returns each point's y at its x |
| TableSpec.UpperFrom | UnitTableFunctions.cpp:92-99 | the first index from i on whose x lies strictly right of the key, with every x before it not right of the key |
| TableSpec.UpperFromFound | UnitTableFunctions.cpp:92-99 | an index with those two properties is the one UpperFrom returns |
| TableSpec.BoundsOnStrict | UnitTableFunctions.cpp:53-99 | on strictly increasing points lower_bound and the rightward scan stop at the same index, or one apart when the key is a sample's x |
| TableSpec.RightScanAgreesWithBSearch | UnitTableFunctions.cpp:80-106 | on strictly increasing points, with the key not left of the cursor's point, the rightward scan returns the binary-search value |
| TableSpec.LeftScanAgreesWithBSearch | UnitTableFunctions.cpp:109-134 | on strictly increasing points, left of the first point or when the segment lies inside the scanned window, the leftward scan returns the binary-search value |
| TableSpec.TestPointsXSet | tests.cpp:52-56 | the five test points have the x values {-1, 0, 1, 2} |
| TableSpec.TestPointsLeaveFour | tests.cpp:52-63 | whichever order Sort gives the two points at x = -1, KillDuplicates leaves 4 points |
| TableSpec.TestPointsStat | tests.cpp:73-82 | CalcStat on the points (-1, y0), (0, 1.5), (1, -0.125), (2, 0.25), for any y0 with -0.125 < y0 < 1.5, gives MinX -1, MaxX 2, MinY -0.125, MaxY 1.5, x_ForMinY 1, x_ForMaxY 0, i_ForMinY 2, i_ForMaxY 1 |
| TableSpec.TestRunKept | tests.cpp:52-63 | on any sorted arrangement of the five test points, KillDuplicates keeps four of them in strictly increasing x |
| TableSpec.TestPointsInOrder | tests.cpp:52-56 | four of the test points in strictly increasing x are (-1, 0.5 or 0.75), (0, 1.5), (1, -0.125), (2, 0.25) |
| TableSpec.TestRunStat | tests.cpp:52-82 | Sort, KillDuplicates and CalcStat on the five test points, in either order of the two at x = -1, leave 4 points with MinX -1, MaxX 2, MinY -0.125, MaxY 1.5, x_ForMinY 1, x_ForMaxY 0, i_ForMinY 2, i_ForMaxY 1 |
| TableSpec.TestExpectationsFail | tests.cpp:73-82 | the statistics the test checks, as written, are never the ones the code leaves |
| TableFunctions.TableFunction.At | UnitTableFunctions.cpp:39-43 | returns point i's coordinates and moves the cursor to i |
| TableFunctions.TableFunction.GetValByBSearchFromX | UnitTableFunctions.cpp:46-77 | on points sorted by x, as std::lower_bound requires: fewer than two points give 0 and leave the cursor; otherwise the cursor is BSearchCache and the value BSearchValue |
| TableFunctions.TableFunction.GetValFromRightX | UnitTableFunctions.cpp:80-106 | fewer than two points give 0; left of the cursor's point the value is that point's y and the cursor stays; otherwise the cursor ends one before the first point right of x, and the value is RightScanValue |
| TableFunctions.TableFunction.GetValFromLeftX | UnitTableFunctions.cpp:109-134 | fewer than two points give 0; left of the first point it extrapolates with cursor 0; inside the window up to the cursor + 2 the cursor ends one before the first point right of x; beyond it the value is the cursor point's y and the cursor stays; the value is LeftScanValue |
| TableFunctions.TableFunction.ClearAll | UnitTableFunctions.cpp:137-152 | no points, all statistics zero, cursor 0, empty name |
| TableFunctions.TableFunction.SetValAtPoint | UnitTableFunctions.cpp:155-158 | point i gets the new y and keeps its x; every other point is unchanged |
| TableFunctions.TableFunction.SetPointByNumber | UnitTableFunctions.cpp:161-165 | point i becomes the given pair; every other point is unchanged |
| TableFunctions.TableFunction.CreateNewFunction | UnitTableFunctions.cpp:168-177 | n points at the origin, cleared statistics and cursor, the given name |
| TableFunctions.TableFunction.CreateDemoFunction | UnitTableFunctions.cpp:180-194 | n samples (a + k dx, f(a + k dx)); statistics computed from cleared ones, so the index fields are the first arg-min and arg-max; cursor 0; the given name |
| TableFunctions.TableFunction.KillDuplicates | UnitTableFunctions.cpp:197-205 | the points become Unique of the old points: no equal neighbours, same x values, a sub-multiset, and strictly increasing when they were sorted |
| TableFunctions.TableFunction.Sort | UnitTableFunctions.cpp:208-214 | the points end sorted by x and are a permutation of the old points |
| TableFunctions.TableFunction.CalcStat | UnitTableFunctions.cpp:217-249 | the statistics become StatOf(points, old statistics), whose meaning StatOfExtremes states |
| Spline.Horner | UnitSpline.cpp:88-89 | the nested form equals the expanded cubic a + b t + c t^2/2 + d t^3/6 in t = x - knot, and is a at the knot |
| Spline.SweptExtend | UnitSpline.cpp:38-48 | storing sweep step i extends the steps stored below i |
| Spline.BackSubstitutionStep | UnitSpline.cpp:52-53 | one back-substitution step sets c at j from c at j + 1 and keeps the knots and both end pieces |
| Spline.CoefficientStep | UnitSpline.cpp:55-60 | one step of the last loop sets b and d of piece j from the c's and gap at j and keeps the knots and c's |
| Spline.CoefficientsFilled | UnitSpline.cpp:55-60 | once every piece from 1 on is filled, every piece has b and d consistent with the c's |
| Spline.PivotBound | UnitSpline.cpp:45-46 | with positive gaps and the previous alpha in (-1/2, 0], the pivot exceeds twice the right gap and the new alpha lies in (-1/2, 0] |
| Spline.ClosingPivotPositive | UnitSpline.cpp:50 | the denominator of the last c is positive |
| Spline.SweepAlphaBound | UnitSpline.cpp:38-48 | on strictly increasing knots every alpha lies in (-1/2, 0] and every pivot is positive, so no division in the sweep is by zero |
| Spline.RowFromSweep | UnitSpline.cpp:45-53 | a sweep step and two back-substitution steps satisfy one inner row of the tridiagonal system |
| Spline.LastRowFromSweep | UnitSpline.cpp:50-53 | the last c and the step left of it satisfy the closing row |
| Spline.InnerRowSolved | UnitSpline.cpp:38-53 | inner row k of the moment system holds for the c's the solve produces |
| Spline.LastRowSolved | UnitSpline.cpp:50-53 | the closing row holds for the last c and the back substitution left of it |
| Spline.InnerRowsSolved | UnitSpline.cpp:38-53 | every inner row of the moment system holds |
| Spline.MomentSystemSolved | UnitSpline.cpp:30-53 | on strictly increasing knots, the c's of the sweep and back substitution solve the whole moment system, the closing row included |
| Spline.RightEndNotNatural | UnitSpline.cpp:38-53 | the closing row is not the natural end condition: through (0, 0), (1, 1), (2, 0) it gives c1 = c2 = -2.4, where the natural spline has c2 = 0 |
| Spline.LeftEndValue | UnitSpline.cpp:55-60 | a piece whose b and d follow from the c's takes the previous knot's y at the previous knot |
| Spline.KnotSegment | UnitSpline.cpp:69-85 | on strictly increasing knots the piece chosen at knot k is piece 1 for k = 0 and piece k otherwise |
| Spline.Interpolates | UnitSpline.cpp:64-90 | a built spline on strictly increasing knots passes through every knot |
| Spline.ChosenPieceAtKnots | UnitSpline.cpp:69-89 | whatever piece the lookup chooses at a knot's x yields that knot's y |
| Spline.BuildResultAsWritten | UnitSpline.cpp:13-61 | fewer than three points return false; otherwise the caller receives a value the code never sets |
| Spline.SuccessMayReportFailure | UnitSpline.cpp:13-61 | a build of three points can report failure although it built the spline |
| Spline.KnotsOf | UnitSpline.cpp:20-30 | one piece per point with the point's x and y, every other coefficient 0 |
| Spline.ForwardSweep | UnitSpline.cpp:32-48 | alpha[0] = beta[0] = 0, every sweep step holds, and A, C, F are those of the last inner knot |
| Spline.BackSubstitute | UnitSpline.cpp:52-53 | every c from the last but one down to 1 is set by back substitution; knots, end pieces, b and d are kept |
| Spline.FillCoefficients | UnitSpline.cpp:55-60 | b and d of every piece but the first are filled from the c's and knots; knots, first piece and c's are kept |
| Spline.CubicSpline.BuildSpline | UnitSpline.cpp:13-61 | succeeds exactly with at least three points; failure leaves the pieces; success gives one piece per point through it, with first piece b = c = d = 0 and every other b and d consistent with the c's; on strictly increasing x the c's solve the moment system |
| Spline.CubicSpline.Eval | UnitSpline.cpp:64-90 | None exactly when no spline is built; otherwise the Horner value of a piece the lookup may choose for x, and at a knot's x that knot's y |
| GradSpec.SumSquares | UnitGradDescent.cpp:24-29 | the sum of squared residuals is non-negative and 0 over no samples |
| GradSpec.Cost | UnitGradDescent.cpp:14-31 | a curve fit costs at least 0; a user cost is the user function at the parameters |
| GradSpec.PartialOfAffine | UnitGradDescent.cpp:94-131 | both stencils return the exact slope where the cost is affine along the axis |
| GradSpec.Clip | UnitGradDescent.cpp:142-145 | in an ordered box the result lies in it and a value inside is kept; above the box it is the upper bound; below it or in an inverted box it is the lower bound |
| GradSpec.RelativeBoundsBracket | UnitGradDescent.cpp:57-58 | a non-negative percentage brackets a non-negative start; around a negative start the bounds come out inverted and clipping pins the axis to the lower bound |
| GradSpec.ResolvedBoundsAxes | UnitGradDescent.cpp:51-60 | axes not marked relative keep their bounds; marked axes get bounds around their start, inverted for a negative start |
| GradSpec.StartState | UnitGradDescent.cpp:62-81 | every step size is the first step, no momentum, and the cost at the start parameters |
| GradSpec.UpdateAxisOutcome | UnitGradDescent.cpp:139-166 | the stored cost is the cost at the tentative value; each of the three outcomes sets axis, step size and momentum as the source does; no other axis changes |
| GradSpec.RejectKeepsStaleCost | UnitGradDescent.cpp:149-166 | after a rejected step the stored cost is that of the rejected point, not of the restored parameters |
| GradSpec.SweepLeavesLaterAxes | UnitGradDescent.cpp:137-168 | a sweep over the first k axes leaves every later axis as it was |
| GradSpec.UpdateAxisKeeps | UnitGradDescent.cpp:139-166 | an axis update keeps the parameters in an ordered box, and keeps step sizes positive when kInc and kDec are |
| GradSpec.UpdateSweepKeeps | UnitGradDescent.cpp:137-168 | a whole sweep keeps the box and positive step sizes |
| GradSpec.IteratesSucc | UnitGradDescent.cpp:83-197 | iteration k + 1 is one more iteration after iteration k |
| GradSpec.IteratesKeep | UnitGradDescent.cpp:83-197 | however many iterations run, parameters stay in an ordered box and step sizes stay positive |
| GradDescentEngine.GradDescent.CalcCost | UnitGradDescent.cpp:14-31 | LastCost becomes the objective's cost at the parameters |
| GradDescentEngine.GradDescent.ResolveRelativeBounds | UnitGradDescent.cpp:51-60 | the bounds become the resolved bounds computed from the parameters |
| GradDescentEngine.GradDescent.GradientPass | UnitGradDescent.cpp:90-133 | parameters end as they began, the result is the finite-difference gradient, and LastCost is the cost at the parameters when there is an axis |
| GradDescentEngine.GradDescent.FivePoint | UnitGradDescent.cpp:96-116 | the axis is restored, LastCost is the cost there, and the result is the 5-point estimate |
| GradDescentEngine.GradDescent.TwoPoint | UnitGradDescent.cpp:120-131 | the axis is restored, LastCost is the cost there, and the result is the 2-point estimate |
| GradDescentEngine.GradDescent.Shift | UnitGradDescent.cpp:96-99 | the axis moves by delta and LastCost becomes the cost at the moved parameters |
| GradDescentEngine.GradDescent.UpdatePass | UnitGradDescent.cpp:135-168 | the new parameters, step sizes, momentum and cost are those of UpdateSweep over all axes |
| GradDescentEngine.GradDescent.SweepAxis | UnitGradDescent.cpp:137-168 | after axis j the state is the sweep through j + 1 axes |
| GradDescentEngine.GradDescent.UpdateOneAxis | UnitGradDescent.cpp:139-166 | the state becomes exactly one UpdateAxis step |
| GradDescentEngine.GradDescent.ClipStep | UnitGradDescent.cpp:139-145 | only axis j changes, to the clipped step against the gradient plus momentum |
| GradDescentEngine.GradDescent.Start | UnitGradDescent.cpp:51-81 | bounds resolved, step sizes, momentum and cost of StartState, iteration count 0, run flag set |
| GradDescentEngine.GradDescent.CloseIteration | UnitGradDescent.cpp:170-197 | the count goes up by one; the iteration cap, then the clock on every CallBackFreq-th iteration, then the loop condition (some step size above its floor) decide the verdict; the run flag stays set exactly when there is none |
| GradDescentEngine.GradDescent.RunIteration | UnitGradDescent.cpp:90-168 | the new state is one Iterate of the old |
| GradDescentEngine.GradDescent.NextIteration | UnitGradDescent.cpp:90-168 | from the state of k iterations, leaves the state of k + 1 |
| GradDescentEngine.GradDescent.LoopPass | UnitGradDescent.cpp:85-197 | a cancel stops with CanceledByUser and nothing run; otherwise one more iteration and CloseIteration's verdict; a pass that goes on, or a cancel, extends "some step size above its floor after every iteration so far", and a pass that goes on, succeeds or is cancelled extends "no expired clock so far" to the new count |
| GradDescentEngine.GradDescent.Descend | UnitGradDescent.cpp:83-204 | the state is that of LastIters iterations; every status comes with its exit condition (cap, clock, cancel, all step sizes at the floor), and every status but a cancel comes after at least one iteration; no cancel and no expired clock before the stop, and none at the stop after a success or a cancel; every iteration before the stop (through the stop on a cancel) left some step size above its floor, so the run stops at the first exit the loop meets |
| GradDescentEngine.GradDescent.Run | UnitGradDescent.cpp:51-204 | resolved bounds, and the state of LastIters iterations from the start state, with Descend's statuses, exit conditions and first-stop guarantees |
| GradDescentEngine.GradDescent.Go | UnitGradDescent.cpp:34-205 | mismatched vector sizes return VectorSizesNotTheSame and change nothing; otherwise what Run states |

## Left out

- The clock, `MaxTime`, `TimeStart` and `LastTime` are left out. The clock is the input `clockExpired(k)`, read after iteration k when k is a multiple of `CallBackFreq`.
- The user callback (UnitGradDescent.cpp:190-193) is left out: it is foreign code.
- The cancellation flag another thread may clear is the input `cancelRequested(k)`, read before iteration k + 1. Concurrency itself is not modelled.
- GradDescentEngine.GradDescent.Go: requires `CallBackFreq > 0`. The source takes `LastIters % CallBackFreq`, which is undefined for 0.
- IEEE rounding is not modelled. In particular, the stencil's offsets from the parameter are taken as exact, so the restored parameter equals the original.
- Divisions by zero (`Eps == 0`, `Eta_k_dec == 0`, a zero-width spline gap) give 0 through `Quot`, where the source gets an infinity or a NaN.
- The store `OldCost = LastCost` at UnitGradDescent.cpp:79 is left out: it is dead.
- The optimizer's constructor, `Stop()` and the header's getters and setters are not part of this model. The objective's sample points are a `seq<SinglePoint>` rather than a nested `TableFunction`.
- TableFunctions.TableFunction.At: returns copies of the coordinates. The writable references the source's `operator[]` hands out are not modelled; a write through them is modelled as `SetPointByNumber` at that index.
- Spline.CubicSpline.BuildSpline: its contract states that the moment system is solved. Smoothness of the resulting curve is not stated.
- Spline.CubicSpline.BuildSpline: it builds the pieces in a local sequence and stores them at the end, rather than resizing the member in place.
- Spline.CubicSpline.Eval: requires that the spline does not have exactly one piece. No build produces one (a build makes at least three), and the source would read piece 1 there.
- TableFunctions.TableFunction.Sort: it promises a sorted permutation and not a particular order of points with equal x, because std::sort is not stable. `TableSpec.SortByX` is one such order.
- Loading from a file or stream (UnitTableFunctions.cpp:252-287) and `TableFunction::BuildSpline` (290-293, a forwarding call) are left out. File I/O and text parsing are outside the model.
- Clearing the table's own spline in `ClearAll` is left out, and so is `shrink_to_fit`. The table model holds no spline.

## Findings

| source | as written | input that shows it | evidently intended | confidence | as-written member | corrected member |
|---|---|---|---|---|---|---|
| UnitSpline.cpp:13-61 | `BuildSpline` returns `false` for fewer than three points but has no `return` on the success path, so the value its caller receives is undefined | any three or more points: the caller may receive `false` after a successful build | return `true` after the coefficients are filled | high, not executed | Spline.BuildResultAsWritten, Spline.SuccessMayReportFailure | Spline.CubicSpline.BuildSpline |
| tests.cpp:81-82 | the test expects `Get_i_ForMinY() == 1` and `Get_i_ForMaxY() == 2` after Sort, KillDuplicates and CalcStat on its five points; read as the fields `i_ForMinY` and `i_ForMaxY`, since the getters' header is not part of this model | the five points of tests.cpp:52-56, in either order Sort gives the two at x = -1 | `i_ForMinY == 2` and `i_ForMaxY == 1`, the indices of the points whose x the test checks at tests.cpp:79-80 | high if each getter returns the field it is named after, not executed | TableSpec.TestExpectationsAsWritten, TableSpec.TestExpectationsFail | TableSpec.TestRunStat |
