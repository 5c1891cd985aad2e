/** The optimizer object: parameters, bounds, settings and run state as
    fields, the cost evaluator and the run loop as methods, each proved to
    follow the functions of `GradSpec`. */
module GradDescentEngine {
  import opened Samples
  import opened GradSpec

  class GradDescent {
    var Params: seq<real>
    var MinConstrains: seq<real>
    var MaxConstrains: seq<real>
    var RelConstrains: seq<real>
    var TypeConstrains: seq<bool>
    var Cur_Eta: seq<real>
    var Min_Eta: real
    var Eta_FirstJump: real
    var Eta_k_inc: real
    var Eta_k_dec: real
    var Alpha: real
    var Eps: real
    var FinDifMethod: bool
    var IsUseUserTargetFunction: bool
    var UserTargetFunction: seq<real> -> real
    var DstFunction: (real, seq<real>) -> real
    var SrcFunction: seq<SinglePoint>
    var LastCost: real
    var LastIters: nat
    var MaxIters: nat
    var CallBackFreq: nat
    var IsCalculating: bool

    /** The objective the mode flag selects. */
    function Objective(): Objective
      reads this`IsUseUserTargetFunction, this`UserTargetFunction, this`DstFunction, this`SrcFunction
    {
      if IsUseUserTargetFunction then UserCost(UserTargetFunction)
      else CurveFit(DstFunction, SrcFunction)
    }

    /** The settings an iteration reads. */
    function Settings(): Config
      reads this`Eps, this`FinDifMethod, this`Alpha, this`Min_Eta, this`Eta_k_inc, this`Eta_k_dec,
        this`MinConstrains, this`MaxConstrains
    {
      Config(Eps, FinDifMethod, Alpha, Min_Eta, Eta_k_inc, Eta_k_dec, MinConstrains, MaxConstrains)
    }

    /** The step size every axis starts a run with. */
    function FirstEta(): real
      reads this`Min_Eta, this`Eta_FirstJump
    {
      Min_Eta * Eta_FirstJump
    }

    /** The four bound vectors have one entry per parameter. */
    predicate SizesMatch()
      reads this`Params, this`MinConstrains, this`MaxConstrains, this`RelConstrains, this`TypeConstrains
    {
      |MinConstrains| == |Params| && |MaxConstrains| == |Params|
      && |RelConstrains| == |Params| && |TypeConstrains| == |Params|
    }

    /** Evaluates the objective at the current parameters into `LastCost`:
        the user cost, or the squared residuals summed over the samples. */
    method CalcCost()
      modifies this`LastCost
      ensures LastCost == Cost(Objective(), Params)
    {
      LastCost := 0.0;
      if IsUseUserTargetFunction {
        LastCost := UserTargetFunction(Params);
      } else {
        for i := 0 to |SrcFunction|
          invariant LastCost == SumSquares(DstFunction, SrcFunction[..i], Params)
        {
          var dfC := SrcFunction[i].y - DstFunction(SrcFunction[i].x, Params);
          LastCost := LastCost + dfC * dfC;
          assert SrcFunction[..i + 1][..i] == SrcFunction[..i];
        }
        assert SrcFunction[..|SrcFunction|] == SrcFunction;
      }
    }

    /** Rewrites the bounds of every axis marked relative from its current
        parameter value; the other bounds stay. */
    method ResolveRelativeBounds()
      requires SizesMatch()
      modifies this`MinConstrains, this`MaxConstrains
      ensures MinConstrains == ResolvedLows(Params, old(MinConstrains), RelConstrains, TypeConstrains)
      ensures MaxConstrains == ResolvedHighs(Params, old(MaxConstrains), RelConstrains, TypeConstrains)
    {
      ghost var lo, hi := MinConstrains, MaxConstrains;
      for i := 0 to |Params|
        invariant |MinConstrains| == |Params| && |MaxConstrains| == |Params|
        invariant forall k :: 0 <= k < i ==>
          MinConstrains[k] == ResolvedLows(Params, lo, RelConstrains, TypeConstrains)[k]
          && MaxConstrains[k] == ResolvedHighs(Params, hi, RelConstrains, TypeConstrains)[k]
        invariant forall k :: i <= k < |Params| ==> MinConstrains[k] == lo[k] && MaxConstrains[k] == hi[k]
      {
        if TypeConstrains[i] {
          MinConstrains := MinConstrains[i := Params[i] * (100.0 - RelConstrains[i]) / 100.0];
          MaxConstrains := MaxConstrains[i := Params[i] * (100.0 + RelConstrains[i]) / 100.0];
        }
      }
    }

    /** The finite-difference pass: every axis is moved by the stencil's
        offsets and put back, so the parameters end as they began, and the
        cost last evaluated is the cost there (when there is an axis). */
    method GradientPass() returns (dCost_dp: seq<real>)
      modifies this`Params, this`LastCost
      ensures Params == old(Params)
      ensures dCost_dp == Gradient(Objective(), Params, Eps, FinDifMethod)
      ensures |Params| > 0 ==> LastCost == Cost(Objective(), Params)
      ensures |Params| == 0 ==> LastCost == old(LastCost)
    {
      ghost var p := Params;
      dCost_dp := seq(|Params|, _ => 0.0);
      for j := 0 to |Params|
        invariant Params == p && |dCost_dp| == |p|
        invariant forall k :: 0 <= k < j ==> dCost_dp[k] == Partial(Objective(), p, Eps, FinDifMethod, k)
        invariant j > 0 ==> LastCost == Cost(Objective(), p)
        invariant j == 0 ==> LastCost == old(LastCost)
      {
        var d;
        if FinDifMethod {
          d := FivePoint(j);
        } else {
          d := TwoPoint(j);
        }
        dCost_dp := dCost_dp[j := d];
      }
      assert dCost_dp == Gradient(Objective(), p, Eps, FinDifMethod);
    }

    /** The 5-point stencil on axis `j`: four evaluations at -2, -1, +1, +2
        times `Eps`, then one at the restored value. */
    method FivePoint(j: nat) returns (d: real)
      requires j < |Params|
      modifies this`Params, this`LastCost
      ensures Params == old(Params) && LastCost == Cost(Objective(), Params)
      ensures d == Partial(Objective(), Params, Eps, true, j)
    {
      ghost var p := Params;
      var yL2 := Shift(j, -2.0 * Eps);
      assert Params == p[j := p[j] - 2.0 * Eps];
      var yL := Shift(j, Eps);
      assert Params == p[j := p[j] - Eps];
      var yR := Shift(j, 2.0 * Eps);
      assert Params == p[j := p[j] + Eps];
      var yR2 := Shift(j, Eps);
      assert Params == p[j := p[j] + 2.0 * Eps];
      var y := Shift(j, -2.0 * Eps);
      assert Params == p;
      d := Quot(yL2 - 8.0 * yL + 8.0 * yR - yR2, 12.0 * Eps);
    }

    /** The 2-point central difference on axis `j`: evaluations at -1 and +1
        times `Eps`, then one at the restored value. */
    method TwoPoint(j: nat) returns (d: real)
      requires j < |Params|
      modifies this`Params, this`LastCost
      ensures Params == old(Params) && LastCost == Cost(Objective(), Params)
      ensures d == Partial(Objective(), Params, Eps, false, j)
    {
      ghost var p := Params;
      var yL := Shift(j, -Eps);
      assert Params == p[j := p[j] - Eps];
      var yR := Shift(j, 2.0 * Eps);
      assert Params == p[j := p[j] + Eps];
      var y := Shift(j, -Eps);
      assert Params == p;
      d := Quot(-yL + yR, 2.0 * Eps);
    }

    /** Moves axis `j` by `delta` and evaluates the cost there. */
    method Shift(j: nat, delta: real) returns (y: real)
      requires j < |Params|
      modifies this`Params, this`LastCost
      ensures Params == old(Params)[j := old(Params)[j] + delta]
      ensures y == LastCost && LastCost == CostAlong(Objective(), old(Params), j, old(Params)[j] + delta)
    {
      Params := Params[j := Params[j] + delta];
      CalcCost();
      y := LastCost;
    }

    /** The update pass: every axis in turn takes its clipped step and is
        kept or undone on the cost it gives, as `UpdateSweep` states. */
    method UpdatePass(dCost_dp: seq<real>, dp0: seq<real>) returns (dp: seq<real>)
      requires |MinConstrains| == |Params| && |MaxConstrains| == |Params|
      requires |Cur_Eta| == |Params| && |dCost_dp| == |Params| && |dp0| == |Params|
      modifies this`Params, this`Cur_Eta, this`LastCost
      ensures Fits(Settings(), RunState(old(Params), old(Cur_Eta), dp0, old(LastCost)))
      ensures RunState(Params, Cur_Eta, dp, LastCost)
        == UpdateSweep(Settings(), Objective(), dCost_dp, old(Params),
                       RunState(old(Params), old(Cur_Eta), dp0, old(LastCost)), |old(Params)|)
    {
      var old_p := Params;
      ghost var cfg, obj := Settings(), Objective();
      ghost var s0 := RunState(Params, Cur_Eta, dp0, LastCost);
      dp := dp0;
      for j := 0 to |old_p|
        invariant Swept(cfg, obj, dCost_dp, old_p, s0, j, RunState(Params, Cur_Eta, dp, LastCost))
      {
        dp := SweepAxis(cfg, obj, dCost_dp, old_p, s0, j, dp);
      }
      assert RunState(Params, Cur_Eta, dp, LastCost) == UpdateSweep(cfg, obj, dCost_dp, old_p, s0, |old_p|);
    }

    /** Axis `j` of a sweep from `s0` that has updated the axes before it. */
    method SweepAxis(ghost cfg: Config, ghost obj: Objective, dCost_dp: seq<real>, old_p: seq<real>, ghost s0: RunState,
                     j: nat, dp0: seq<real>) returns (dp: seq<real>)
      requires cfg == Settings() && obj == Objective() && Fits(cfg, s0)
      requires |dCost_dp| == |s0.params| && |old_p| == |s0.params| && j < |s0.params|
      requires Swept(cfg, obj, dCost_dp, old_p, s0, j, RunState(Params, Cur_Eta, dp0, LastCost))
      modifies this`Params, this`Cur_Eta, this`LastCost
      ensures Swept(cfg, obj, dCost_dp, old_p, s0, j + 1, RunState(Params, Cur_Eta, dp, LastCost))
    {
      assert RunState(Params, Cur_Eta, dp0, LastCost) == UpdateSweep(cfg, obj, dCost_dp, old_p, s0, j);
      dp := UpdateOneAxis(dCost_dp, old_p, dp0, j);
      assert RunState(Params, Cur_Eta, dp, LastCost) == UpdateSweep(cfg, obj, dCost_dp, old_p, s0, j + 1);
    }

    /** The accept/reject update of axis `j`: exactly one `UpdateAxis` step. */
    method UpdateOneAxis(dCost_dp: seq<real>, old_p: seq<real>, dp0: seq<real>, j: nat) returns (dp: seq<real>)
      requires |MinConstrains| == |Params| && |MaxConstrains| == |Params| && |Cur_Eta| == |Params|
      requires |dCost_dp| == |Params| && |old_p| == |Params| && |dp0| == |Params| && j < |Params|
      modifies this`Params, this`Cur_Eta, this`LastCost
      ensures Fits(Settings(), RunState(old(Params), old(Cur_Eta), dp0, old(LastCost)))
      ensures RunState(Params, Cur_Eta, dp, LastCost)
        == UpdateAxis(Settings(), Objective(), dCost_dp, old_p,
                      RunState(old(Params), old(Cur_Eta), dp0, old(LastCost)), j)
    {
      ghost var s := RunState(Params, Cur_Eta, dp0, LastCost);
      ghost var v := Tentative(Settings(), dCost_dp, s, j);
      ClipStep(dCost_dp, dp0, j);
      assert Params == s.params[j := v];
      dp := dp0[j := Params[j] - old_p[j]];
      var OldCost := LastCost;
      CalcCost();
      var dCost := OldCost - LastCost;
      assert LastCost == Cost(Objective(), s.params[j := v]);
      UpdateAxisCases(Settings(), Objective(), dCost_dp, old_p, s, j);
      ghost var r := UpdateAxis(Settings(), Objective(), dCost_dp, old_p, s, j);
      if dCost > 0.0 {
        Cur_Eta := Cur_Eta[j := Cur_Eta[j] * Eta_k_inc];
        assert Cur_Eta[j] == r.eta[j];
        assert forall i :: 0 <= i < |Cur_Eta| && i != j ==> Cur_Eta[i] == r.eta[i];
      } else {
        if Cur_Eta[j] > Min_Eta {
          Params := Params[j := old_p[j]];
          dp := dp[j := 0.0];
          Cur_Eta := Cur_Eta[j := Quot(Cur_Eta[j], Eta_k_dec)];
          assert Params == s.params[j := old_p[j]] && dp == s.dp[j := 0.0];
        }
      }
    }

    /** The step of axis `j`: against the gradient scaled by its step size,
        plus the momentum, then capped at the upper and raised to the lower
        bound. */
    method ClipStep(dCost_dp: seq<real>, dp: seq<real>, j: nat)
      requires |MinConstrains| == |Params| && |MaxConstrains| == |Params| && |Cur_Eta| == |Params|
      requires |dCost_dp| == |Params| && |dp| == |Params| && j < |Params|
      modifies this`Params
      ensures Params == old(Params)[j := Tentative(Settings(), dCost_dp, RunState(old(Params), Cur_Eta, dp, LastCost), j)]
    {
      ghost var s := RunState(Params, Cur_Eta, dp, LastCost);
      Params := Params[j := Params[j] - Cur_Eta[j] * dCost_dp[j]];
      Params := Params[j := Params[j] + Alpha * dp[j]];
      if Params[j] > MaxConstrains[j] {
        Params := Params[j := MaxConstrains[j]];
      }
      if Params[j] < MinConstrains[j] {
        Params := Params[j := MinConstrains[j]];
      }
      assert Params[j] == Tentative(Settings(), dCost_dp, s, j);
    }

    /** One run. The cancellation flag another thread may clear is the
        input `cancelRequested(k)`, read before iteration `k + 1`; the clock
        is the input `clockExpired(k)`, read after iteration `k` when `k` is
        a multiple of `CallBackFreq`. */
    method Go(cancelRequested: nat -> bool, clockExpired: nat -> bool) returns (status: GradErrorType)
      requires CallBackFreq > 0
      modifies this`Params, this`MinConstrains, this`MaxConstrains, this`Cur_Eta,
        this`LastCost, this`LastIters, this`IsCalculating
      ensures !old(SizesMatch()) ==> status == VectorSizesNotTheSame && unchanged(this)
      ensures old(SizesMatch()) ==>
        && MinConstrains == ResolvedLows(old(Params), old(MinConstrains), RelConstrains, TypeConstrains)
        && MaxConstrains == ResolvedHighs(old(Params), old(MaxConstrains), RelConstrains, TypeConstrains)
      ensures old(SizesMatch()) ==>
        && Fits(Settings(), StartState(Objective(), old(Params), FirstEta()))
        && var st := Iterates(Settings(), Objective(), StartState(Objective(), old(Params), FirstEta()), LastIters);
           Params == st.params && Cur_Eta == st.eta && LastCost == st.cost
      ensures old(SizesMatch()) ==> status != VectorSizesNotTheSame && !IsCalculating && LastIters <= MaxIters + 1
      ensures status == ItersOverflow <==> old(SizesMatch()) && LastIters == MaxIters + 1
      ensures status == Success ==> 1 <= LastIters && forall k :: 0 <= k < |Cur_Eta| ==> Cur_Eta[k] <= Min_Eta
      ensures status == CanceledByUser ==> cancelRequested(LastIters)
      ensures status == TimeOut ==> 1 <= LastIters && LastIters % CallBackFreq == 0 && clockExpired(LastIters)
      ensures old(SizesMatch()) ==> forall k :: 0 <= k < LastIters ==> !cancelRequested(k)
      ensures old(SizesMatch()) ==>
        forall k :: 1 <= k < LastIters && k % CallBackFreq == 0 ==> !clockExpired(k)
      ensures status == Success || status == CanceledByUser ==>
        forall k :: 1 <= k <= LastIters && k % CallBackFreq == 0 ==> !clockExpired(k)
      ensures old(SizesMatch()) && status == CanceledByUser ==>
        MovingThrough(Settings(), Objective(), StartState(Objective(), old(Params), FirstEta()), LastIters)
      ensures old(SizesMatch()) && status != CanceledByUser ==>
        MovingThrough(Settings(), Objective(), StartState(Objective(), old(Params), FirstEta()), LastIters - 1)
    {
      if !SizesMatch() {
        return VectorSizesNotTheSame;
      }
      status := Run(cancelRequested, clockExpired);
    }

    /** A run once the vector sizes are known to agree. */
    method Run(cancelRequested: nat -> bool, clockExpired: nat -> bool) returns (status: GradErrorType)
      requires CallBackFreq > 0 && SizesMatch()
      modifies this`Params, this`MinConstrains, this`MaxConstrains, this`Cur_Eta,
        this`LastCost, this`LastIters, this`IsCalculating
      ensures MinConstrains == ResolvedLows(old(Params), old(MinConstrains), RelConstrains, TypeConstrains)
      ensures MaxConstrains == ResolvedHighs(old(Params), old(MaxConstrains), RelConstrains, TypeConstrains)
      ensures Fits(Settings(), StartState(Objective(), old(Params), FirstEta()))
      ensures var st := Iterates(Settings(), Objective(), StartState(Objective(), old(Params), FirstEta()), LastIters);
        Params == st.params && Cur_Eta == st.eta && LastCost == st.cost
      ensures status != VectorSizesNotTheSame && !IsCalculating && LastIters <= MaxIters + 1
      ensures status == ItersOverflow <==> LastIters == MaxIters + 1
      ensures status == Success ==> 1 <= LastIters && forall k :: 0 <= k < |Cur_Eta| ==> Cur_Eta[k] <= Min_Eta
      ensures status == CanceledByUser ==> cancelRequested(LastIters)
      ensures status == TimeOut ==> 1 <= LastIters && LastIters % CallBackFreq == 0 && clockExpired(LastIters)
      ensures forall k :: 0 <= k < LastIters ==> !cancelRequested(k)
      ensures forall k :: 1 <= k < LastIters && k % CallBackFreq == 0 ==> !clockExpired(k)
      ensures status == Success || status == CanceledByUser ==>
                forall k :: 1 <= k <= LastIters && k % CallBackFreq == 0 ==> !clockExpired(k)
      ensures status == CanceledByUser ==>
                MovingThrough(Settings(), Objective(), StartState(Objective(), old(Params), FirstEta()), LastIters)
      ensures status != CanceledByUser ==>
                MovingThrough(Settings(), Objective(), StartState(Objective(), old(Params), FirstEta()), LastIters - 1)
    {
      var dp := Start();
      ghost var cfg, obj := Settings(), Objective();
      ghost var s0 := StartState(obj, old(Params), FirstEta());
      assert RunState(Params, Cur_Eta, dp, LastCost) == s0;
      status, dp := Descend(cfg, obj, s0, cancelRequested, clockExpired, dp);
      assert cfg == Settings() && obj == Objective();
      assert s0 == StartState(Objective(), old(Params), FirstEta());
      assert RunState(Params, Cur_Eta, dp, LastCost) == Iterates(cfg, obj, s0, LastIters);
    }

    /** The preparation of a run: relative bounds resolved, every step size
        at its first jump, the momentum zero, the cost of the starting
        parameters held and the iteration count cleared. */
    method Start() returns (dp: seq<real>)
      requires SizesMatch()
      modifies this`MinConstrains, this`MaxConstrains, this`Cur_Eta, this`LastCost, this`LastIters, this`IsCalculating
      ensures MinConstrains == ResolvedLows(Params, old(MinConstrains), RelConstrains, TypeConstrains)
      ensures MaxConstrains == ResolvedHighs(Params, old(MaxConstrains), RelConstrains, TypeConstrains)
      ensures LastIters == 0 && IsCalculating
      ensures Fits(Settings(), StartState(Objective(), Params, FirstEta()))
      ensures var st := StartState(Objective(), Params, FirstEta());
        Cur_Eta == st.eta && dp == st.dp && LastCost == st.cost
    {
      var ParamsCount := |Params|;
      ResolveRelativeBounds();
      var eta0 := FirstEta();
      Cur_Eta := seq(ParamsCount, _ => eta0);
      IsCalculating := true;
      dp := seq(ParamsCount, _ => 0.0);
      CalcCost();
      LastIters := 0;
      ghost var st := StartState(Objective(), Params, eta0);
      assert Cur_Eta == st.eta && dp == st.dp && LastCost == st.cost;
    }

    /** The end of an iteration: counts it, applies the iteration cap, then,
        on every `CallBackFreq`-th iteration, the clock, and last the loop
        condition; a verdict stops the run with that status. */
    method CloseIteration(clockExpired: nat -> bool) returns (verdict: Option<GradErrorType>)
      requires CallBackFreq > 0 && IsCalculating
      modifies this`LastIters, this`IsCalculating
      ensures LastIters == old(LastIters) + 1
      ensures verdict == (if LastIters > MaxIters then Some(ItersOverflow)
                          else if LastIters % CallBackFreq == 0 && clockExpired(LastIters) then Some(TimeOut)
                          else if !AboveFloor(Cur_Eta, Min_Eta) then Some(Success)
                          else None)
      ensures IsCalculating <==> verdict.None?
    {
      LastIters := LastIters + 1;
      if LastIters > MaxIters {
        IsCalculating := false;
        return Some(ItersOverflow);
      }
      if LastIters % CallBackFreq == 0 {
        if clockExpired(LastIters) {
          IsCalculating := false;
          return Some(TimeOut);
        }
      }
      if !AboveFloor(Cur_Eta, Min_Eta) {
        IsCalculating := false;
        return Some(Success);
      }
      return None;
    }

    /** One iteration: the gradient pass, then the update pass. */
    method RunIteration(dp0: seq<real>) returns (dp: seq<real>)
      requires Fits(Settings(), RunState(Params, Cur_Eta, dp0, LastCost))
      modifies this`Params, this`Cur_Eta, this`LastCost
      ensures Fits(Settings(), RunState(old(Params), old(Cur_Eta), dp0, old(LastCost)))
      ensures RunState(Params, Cur_Eta, dp, LastCost)
        == Iterate(Settings(), Objective(), RunState(old(Params), old(Cur_Eta), dp0, old(LastCost)))
    {
      var dCost_dp := GradientPass();
      dp := UpdatePass(dCost_dp, dp0);
    }

    /** Iteration `k + 1` of a run from `s0`, from the state iteration `k` left. */
    method NextIteration(ghost cfg: Config, ghost obj: Objective, ghost s0: RunState, ghost k: nat, dp0: seq<real>)
      returns (dp: seq<real>)
      requires cfg == Settings() && obj == Objective() && Fits(cfg, s0)
      requires Reached(cfg, obj, s0, k, RunState(Params, Cur_Eta, dp0, LastCost))
      modifies this`Params, this`Cur_Eta, this`LastCost
      ensures Reached(cfg, obj, s0, k + 1, RunState(Params, Cur_Eta, dp, LastCost))
    {
      assert RunState(Params, Cur_Eta, dp0, LastCost) == Iterates(cfg, obj, s0, k);
      dp := RunIteration(dp0);
      IteratesSucc(cfg, obj, s0, k);
    }

    /** One pass of the run loop: the cancellation check, then iteration
        `LastIters + 1` and its close. A verdict stops the run with that status. */
    method LoopPass(ghost cfg: Config, ghost obj: Objective, ghost s0: RunState,
                    cancelRequested: nat -> bool, clockExpired: nat -> bool, dp0: seq<real>)
      returns (verdict: Option<GradErrorType>, dp: seq<real>)
      requires CallBackFreq > 0 && IsCalculating
      requires cfg == Settings() && obj == Objective() && Fits(cfg, s0)
      requires Reached(cfg, obj, s0, LastIters, RunState(Params, Cur_Eta, dp0, LastCost))
      requires MovingThrough(cfg, obj, s0, LastIters)
      requires forall k :: 1 <= k <= LastIters && k % CallBackFreq == 0 ==> !clockExpired(k)
      modifies this`Params, this`Cur_Eta, this`LastCost, this`LastIters, this`IsCalculating
      ensures cfg == Settings() && obj == Objective()
      ensures Reached(cfg, obj, s0, LastIters, RunState(Params, Cur_Eta, dp, LastCost))
      ensures LastIters == if cancelRequested(old(LastIters)) then old(LastIters) else old(LastIters) + 1
      ensures verdict == (if cancelRequested(old(LastIters)) then Some(CanceledByUser)
                          else if LastIters > MaxIters then Some(ItersOverflow)
                          else if LastIters % CallBackFreq == 0 && clockExpired(LastIters) then Some(TimeOut)
                          else if !AboveFloor(Cur_Eta, Min_Eta) then Some(Success)
                          else None)
      ensures IsCalculating <==> verdict.None?
      ensures verdict.None? || verdict == Some(CanceledByUser) || verdict == Some(Success) ==>
                forall k :: 1 <= k <= LastIters && k % CallBackFreq == 0 ==> !clockExpired(k)
      ensures verdict.None? || verdict == Some(CanceledByUser) ==> MovingThrough(cfg, obj, s0, LastIters)
    {
      if cancelRequested(LastIters) {
        IsCalculating := false;
      }
      if !IsCalculating {
        return Some(CanceledByUser), dp0;
      }
      dp := NextIteration(cfg, obj, s0, LastIters, dp0);
      verdict := CloseIteration(clockExpired);
    }

    /** The iteration loop from a prepared start: it stops when the flag is
        cleared, after the iteration cap, on a timed-out clock, or once no
        step size is above its floor. */
    method Descend(ghost cfg: Config, ghost obj: Objective, ghost s0: RunState,
                   cancelRequested: nat -> bool, clockExpired: nat -> bool, dp0: seq<real>)
      returns (status: GradErrorType, dp: seq<real>)
      requires CallBackFreq > 0 && LastIters == 0 && IsCalculating
      requires cfg == Settings() && obj == Objective() && Fits(cfg, s0)
      requires s0 == RunState(Params, Cur_Eta, dp0, LastCost)
      modifies this`Params, this`Cur_Eta, this`LastCost, this`LastIters, this`IsCalculating
      ensures Reached(cfg, obj, s0, LastIters, RunState(Params, Cur_Eta, dp, LastCost))
      ensures status != VectorSizesNotTheSame && !IsCalculating && LastIters <= MaxIters + 1
      ensures status == ItersOverflow <==> LastIters == MaxIters + 1
      ensures status == Success ==> 1 <= LastIters && forall k :: 0 <= k < |Cur_Eta| ==> Cur_Eta[k] <= Min_Eta
      ensures status == CanceledByUser ==> cancelRequested(LastIters)
      ensures status == TimeOut ==> 1 <= LastIters && LastIters % CallBackFreq == 0 && clockExpired(LastIters)
      ensures forall k :: 0 <= k < LastIters ==> !cancelRequested(k)
      ensures forall k :: 1 <= k < LastIters && k % CallBackFreq == 0 ==> !clockExpired(k)
      ensures status == Success || status == CanceledByUser ==>
                forall k :: 1 <= k <= LastIters && k % CallBackFreq == 0 ==> !clockExpired(k)
      ensures status == CanceledByUser ==> MovingThrough(cfg, obj, s0, LastIters)
      ensures status != CanceledByUser ==> MovingThrough(cfg, obj, s0, LastIters - 1)
      ensures cfg == Settings() && obj == Objective()
    {
      dp := dp0;
      while true
        invariant Reached(cfg, obj, s0, LastIters, RunState(Params, Cur_Eta, dp, LastCost))
        invariant cfg == Settings() && obj == Objective()
        invariant IsCalculating && LastIters <= MaxIters
        invariant forall k :: 0 <= k < LastIters ==> !cancelRequested(k)
        invariant forall k :: 1 <= k <= LastIters && k % CallBackFreq == 0 ==> !clockExpired(k)
        invariant MovingThrough(cfg, obj, s0, LastIters)
        decreases MaxIters - LastIters
      {
        var verdict;
        verdict, dp := LoopPass(cfg, obj, s0, cancelRequested, clockExpired, dp);
        if verdict.Some? {
          return verdict.value, dp;
        }
      }
    }
  }
}
