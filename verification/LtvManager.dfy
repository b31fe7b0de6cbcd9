/** The LTV decision engine (src/chains/evm/tools/ltv-manager.ts), with the source's
    floating-point numbers read as reals. */
module LtvManager {

  datatype AgentConfig = AgentConfig(maxLTV: real, targetLTV: real, minYieldSpread: real, paused: bool)

  datatype LtvManagerInput = LtvManagerInput(collateralUsd: real, borrowUsd: real, supplyAPY: real, borrowAPR: real,
                                             config: AgentConfig)

  datatype LtvAction =
    | Hold(currentLTV: real, yieldSpread: real)
    | Repay(currentLTV: real, yieldSpread: real, repayAmountUsd: real)
    | Optimize(currentLTV: real, yieldSpread: real, borrowMoreUsd: real)

  function ComputeLTV(collateralUsd: real, borrowUsd: real): real {
    if collateralUsd <= 0.0 then 0.0 else borrowUsd / collateralUsd
  }

  function ComputeYieldSpread(supplyAPY: real, borrowAPR: real): real {
    (supplyAPY - borrowAPR) / 100.0
  }

  function AtLeastZero(x: real): real {
    if x > 0.0 then x else 0.0
  }

  function CalculateRepayAmount(collateralUsd: real, borrowUsd: real, targetLTV: real): real {
    AtLeastZero(borrowUsd - targetLTV * collateralUsd)
  }

  function CalculateOptimizeAmount(collateralUsd: real, borrowUsd: real, targetLTV: real): real {
    AtLeastZero(targetLTV * collateralUsd - borrowUsd)
  }

  function DecideLtvAction(input: LtvManagerInput): LtvAction {
    var ltv := ComputeLTV(input.collateralUsd, input.borrowUsd);
    var spread := ComputeYieldSpread(input.supplyAPY, input.borrowAPR);
    var c := input.config;
    if c.paused then Hold(ltv, spread)
    else if input.collateralUsd <= 0.0 && input.borrowUsd <= 0.0 then Hold(ltv, spread)
    else if ltv > c.maxLTV * 0.95 then
      Repay(ltv, spread, CalculateRepayAmount(input.collateralUsd, input.borrowUsd, c.targetLTV))
    else if ltv < c.targetLTV * 0.8 && spread > c.minYieldSpread then
      var more := CalculateOptimizeAmount(input.collateralUsd, input.borrowUsd, c.targetLTV);
      if more > 0.0 then Optimize(ltv, spread, more) else Hold(ltv, spread)
    else Hold(ltv, spread)
  }

  // ---- the loop closed: a decided action is applied in full ----

  function Borrowed(borrowUsd: real, action: LtvAction): real {
    match action
    case Hold(_, _) => borrowUsd
    case Repay(_, _, amount) => borrowUsd - amount
    case Optimize(_, _, amount) => borrowUsd + amount
  }

  predicate Sensible(c: AgentConfig) {
    0.0 < c.targetLTV <= 0.95 * c.maxLTV
  }

  /** What the outside world supplies at one cycle. */
  datatype Rates = Rates(supplyAPY: real, borrowAPR: real, paused: bool)

  function At(collateralUsd: real, borrowUsd: real, r: Rates, c: AgentConfig): LtvManagerInput {
    LtvManagerInput(collateralUsd, borrowUsd, r.supplyAPY, r.borrowAPR, c.(paused := r.paused))
  }

  function Decide(collateralUsd: real, borrowUsd: real, r: Rates, c: AgentConfig): LtvAction {
    DecideLtvAction(At(collateralUsd, borrowUsd, r, c))
  }

  /** The actions of a run with fixed collateral, each applied in full. */
  function Actions(collateralUsd: real, borrowUsd: real, rates: seq<Rates>, c: AgentConfig): seq<LtvAction>
    decreases |rates|
  {
    if rates == [] then []
    else
      var action := Decide(collateralUsd, borrowUsd, rates[0], c);
      [action] + Actions(collateralUsd, Borrowed(borrowUsd, action), rates[1..], c)
  }

  function CountActing(actions: seq<LtvAction>): nat {
    if actions == [] then 0 else (if actions[0].Hold? then 0 else 1) + CountActing(actions[1..])
  }

  lemma QuotientOver(x: real, y: real, k: real)
    requires y > 0.0
    ensures x / y <= k <==> x <= k * y
    ensures x / y < k <==> x < k * y
  {
    var q := x / y;
    assert q * y == x;
    if q <= k { assert q * y <= k * y; } else { assert q * y > k * y; }
    if q < k { assert q * y < k * y; } else { assert q * y >= k * y; }
  }

  /** The decision read off the position, the rates and the limits: a paused agent holds; else
      it repays exactly above 95% of the maximum, down to the target, and borrows exactly
      below 80% of the target when the yield spread is above the least one, up to the target. */
  lemma DecisionFromPosition(x: real, b: real, r: Rates, c: AgentConfig)
    requires x > 0.0
    ensures var a := Decide(x, b, r, c);
      && a.currentLTV * x == b && a.yieldSpread * 100.0 == r.supplyAPY - r.borrowAPR
      && (a.Repay? <==> !r.paused && b > 0.95 * c.maxLTV * x)
      && (a.Optimize? <==> !r.paused && b <= 0.95 * c.maxLTV * x && b < 0.8 * c.targetLTV * x
                           && r.supplyAPY - r.borrowAPR > 100.0 * c.minYieldSpread && c.targetLTV * x > b)
      && (a.Repay? ==> a.repayAmountUsd == if b > c.targetLTV * x then b - c.targetLTV * x else 0.0)
      && (a.Optimize? ==> a.borrowMoreUsd == c.targetLTV * x - b)
  {
    hide ComputeLTV;
    LtvAgainst(x, b, c.maxLTV, 0.95);
    LtvAgainst(x, b, c.targetLTV, 0.8);
    DecisionFromLtv(At(x, b, r, c));
  }

  lemma LtvAgainst(x: real, b: real, limit: real, factor: real)
    requires x > 0.0
    ensures ComputeLTV(x, b) * x == b
    ensures ComputeLTV(x, b) > limit * factor <==> b > factor * limit * x
    ensures ComputeLTV(x, b) < limit * factor <==> b < factor * limit * x
  {
    QuotientOver(b, x, limit * factor);
    assert (limit * factor) * x == factor * limit * x;
  }

  lemma DecisionFromLtv(input: LtvManagerInput)
    requires input.collateralUsd > 0.0
    ensures var x, b, c := input.collateralUsd, input.borrowUsd, input.config;
      var a, ltv := DecideLtvAction(input), ComputeLTV(x, b);
      && a.currentLTV == ltv && a.yieldSpread * 100.0 == input.supplyAPY - input.borrowAPR
      && (a.Repay? <==> !c.paused && ltv > c.maxLTV * 0.95)
      && (a.Optimize? <==> !c.paused && !(ltv > c.maxLTV * 0.95) && ltv < c.targetLTV * 0.8
                           && input.supplyAPY - input.borrowAPR > 100.0 * c.minYieldSpread && c.targetLTV * x > b)
      && (a.Repay? ==> a.repayAmountUsd == if b > c.targetLTV * x then b - c.targetLTV * x else 0.0)
      && (a.Optimize? ==> a.borrowMoreUsd == c.targetLTV * x - b)
  {
    hide ComputeLTV;
  }

  /** Without collateral the LTV counts as zero; without a debt, too, nothing is done. */
  lemma DecisionWithoutCollateral(x: real, b: real, r: Rates, c: AgentConfig)
    requires x <= 0.0
    ensures var a := Decide(x, b, r, c);
      && a.currentLTV == 0.0 && a.yieldSpread * 100.0 == r.supplyAPY - r.borrowAPR
      && (a.Repay? <==> !r.paused && b > 0.0 && c.maxLTV < 0.0)
      && (a.Optimize? <==> !r.paused && b > 0.0 && c.maxLTV >= 0.0 && c.targetLTV > 0.0
                           && r.supplyAPY - r.borrowAPR > 100.0 * c.minYieldSpread && c.targetLTV * x > b)
  {
  }

  /** The kill switch: while paused, a run of any length acts never, whatever the position. */
  lemma {:induction false} PausedNeverActs(x: real, b: real, rates: seq<Rates>, c: AgentConfig)
    requires forall i | 0 <= i < |rates| :: rates[i].paused
    ensures CountActing(Actions(x, b, rates, c)) == 0
    ensures forall a :: a in Actions(x, b, rates, c) ==> a.Hold?
    decreases |rates|
  {
    if rates != [] {
      PausedHolds(x, b, rates[0], c);
      hide Decide;
      PausedNeverActs(x, b, rates[1..], c);
    }
  }

  lemma PausedHolds(x: real, b: real, r: Rates, c: AgentConfig)
    requires r.paused
    ensures Decide(x, b, r, c).Hold?
  {
  }

  /** An action that is not a hold moves the LTV strictly, and exactly to the target. */
  lemma ActionReachesTarget(collateralUsd: real, borrowUsd: real, r: Rates, c: AgentConfig)
    requires collateralUsd > 0.0 && Sensible(c)
    requires !Decide(collateralUsd, borrowUsd, r, c).Hold?
    ensures var next := Borrowed(borrowUsd, Decide(collateralUsd, borrowUsd, r, c));
      next == c.targetLTV * collateralUsd && ComputeLTV(collateralUsd, next) == c.targetLTV && next != borrowUsd
  {
    var ltv := ComputeLTV(collateralUsd, borrowUsd);
    QuotientOver(borrowUsd, collateralUsd, c.targetLTV);
    var goal := c.targetLTV * collateralUsd;
    assert goal / collateralUsd == c.targetLTV;
  }

  /** The engine holds at this position whatever the rates and the pause switch. */
  ghost predicate AlwaysHolds(collateralUsd: real, borrowUsd: real, c: AgentConfig) {
    forall r: Rates :: Decide(collateralUsd, borrowUsd, r, c).Hold?
  }

  /** The two ways out of holding, whatever the rates. */
  predicate TooHigh(x: real, b: real, c: AgentConfig) {
    ComputeLTV(x, b) > c.maxLTV * 0.95
  }

  predicate TooLow(x: real, b: real, c: AgentConfig) {
    ComputeLTV(x, b) < c.targetLTV * 0.8 && c.targetLTV * x > b
  }

  lemma AlwaysHoldsExactly(x: real, b: real, c: AgentConfig)
    requires x > 0.0
    ensures AlwaysHolds(x, b, c) <==> !TooHigh(x, b, c) && !TooLow(x, b, c)
  {
    hide ComputeLTV;
    var rich := Rates(100.0 * (c.minYieldSpread + 1.0), 0.0, false);
    assert ComputeYieldSpread(rich.supplyAPY, rich.borrowAPR) > c.minYieldSpread;
    var a := Decide(x, b, rich, c);
    assert a.Hold? <==> !TooHigh(x, b, c) && !TooLow(x, b, c);
  }

  /** At a collateral worth g times what it was when the LTV was at target, the engine
      holds for all rates exactly when g lies between target / (0.95 * max) and 1.25. */
  lemma HoldsExactlyInBand(collateralUsd: real, g: real, c: AgentConfig)
    requires collateralUsd > 0.0 && g > 0.0 && Sensible(c)
    ensures AlwaysHolds(g * collateralUsd, c.targetLTV * collateralUsd, c)
       <==> c.targetLTV <= g * (0.95 * c.maxLTV) && g <= 1.25
  {
    assert c.targetLTV > 0.0;
    hide *;
    MulPositive(g, collateralUsd);
    AlwaysHoldsExactly(g * collateralUsd, c.targetLTV * collateralUsd, c);
    BandBottom(collateralUsd, g, c);
    BandUpper(collateralUsd, g, c);
  }

  lemma BandBottom(x: real, g: real, c: AgentConfig)
    requires g > 0.0 && x > 0.0
    ensures TooHigh(g * x, c.targetLTV * x, c) <==> !(c.targetLTV <= g * (0.95 * c.maxLTV))
  {
    RatioOf(c.targetLTV, g, x);
    QuotientOver(c.targetLTV, g, c.maxLTV * 0.95);
    assert (c.maxLTV * 0.95) * g == g * (0.95 * c.maxLTV);
    assert ComputeLTV(g * x, c.targetLTV * x) == c.targetLTV / g;
    hide ComputeLTV;
  }

  lemma BandUpper(x: real, g: real, c: AgentConfig)
    requires c.targetLTV > 0.0 && g > 0.0 && x > 0.0
    ensures TooLow(g * x, c.targetLTV * x, c) <==> g > 1.25
  {
    RatioOf(c.targetLTV, g, x);
    assert ComputeLTV(g * x, c.targetLTV * x) == c.targetLTV / g;
    hide ComputeLTV;
    BandTop(c.targetLTV, g);
    if g > 1.25 {
      AboveBand(c.targetLTV, g, x);
    }
  }

  lemma MulPositive(x: real, y: real)
    requires x > 0.0 && y > 0.0
    ensures x * y > 0.0
  {
  }

  lemma RatioOf(t: real, g: real, x: real)
    requires g > 0.0 && x > 0.0
    ensures g * x > 0.0 && (t * x) / (g * x) == t / g
  {
    MulPositive(g, x);
    var q := t / g;
    assert q * g == t;
    assert q * (g * x) == t * x;
  }

  lemma BandTop(t: real, g: real)
    requires t > 0.0 && g > 0.0
    ensures t / g < t * 0.8 <==> g > 1.25
  {
    QuotientOver(t, g, t * 0.8);
    assert t < (t * 0.8) * g <==> 1.0 < 0.8 * g by {
      var d := 0.8 * g - 1.0;
      assert (t * 0.8) * g - t == t * d;
      if d > 0.0 { assert t * d > 0.0; } else { assert t * d <= 0.0; }
    }
  }

  lemma AboveBand(t: real, g: real, x: real)
    requires t > 0.0 && g > 0.0 && x > 0.0 && t / g < t * 0.8
    ensures t * (g * x) > t * x
  {
    BandTop(t, g);
    assert g * x - x == (g - 1.0) * x;
    MulPositive(g - 1.0, x);
    MulPositive(t, g * x - x);
    assert t * (g * x) - t * x == t * (g * x - x);
  }

  /** Once at target, every later decision is hold, whatever the rates do. */
  lemma {:induction false} TargetIsStable(collateralUsd: real, rates: seq<Rates>, c: AgentConfig)
    requires collateralUsd > 0.0 && Sensible(c)
    ensures CountActing(Actions(collateralUsd, c.targetLTV * collateralUsd, rates, c)) == 0
    ensures forall a :: a in Actions(collateralUsd, c.targetLTV * collateralUsd, rates, c) ==> a.Hold?
  {
    if rates != [] {
      HoldsExactlyInBand(collateralUsd, 1.0, c);
      assert 1.0 * collateralUsd == collateralUsd;
      hide Decide;
      var action := Decide(collateralUsd, c.targetLTV * collateralUsd, rates[0], c);
      TargetIsStable(collateralUsd, rates[1..], c);
      assert action.Hold?;
    }
  }

  /** With fixed collateral any run of cycles acts at most once. */
  lemma {:induction false} ActsAtMostOnce(collateralUsd: real, borrowUsd: real, rates: seq<Rates>, c: AgentConfig)
    requires collateralUsd > 0.0 && Sensible(c)
    ensures CountActing(Actions(collateralUsd, borrowUsd, rates, c)) <= 1
    decreases |rates|
  {
    if rates != [] {
      var action := Decide(collateralUsd, borrowUsd, rates[0], c);
      if action.Hold? {
        ActsAtMostOnce(collateralUsd, borrowUsd, rates[1..], c);
      } else {
        ActionReachesTarget(collateralUsd, borrowUsd, rates[0], c);
        TargetIsStable(collateralUsd, rates[1..], c);
      }
      hide Decide;
    }
  }

  /** The guard on the target is needed: a target above 95% of the maximum is itself
      over the safety threshold, so at target the engine keeps deciding to repay nothing. */
  lemma StableExactlyWhenSensible(collateralUsd: real, c: AgentConfig)
    requires collateralUsd > 0.0 && c.targetLTV > 0.0
    ensures var b := c.targetLTV * collateralUsd;
      && (AlwaysHolds(collateralUsd, b, c) <==> Sensible(c))
      && (!Sensible(c) ==> forall r: Rates :: !r.paused ==>
            Decide(collateralUsd, b, r, c).Repay? && Decide(collateralUsd, b, r, c).repayAmountUsd == 0.0)
  {
    var b := c.targetLTV * collateralUsd;
    MulPositive(c.targetLTV, collateralUsd);
    assert b / collateralUsd == c.targetLTV;
    AlwaysHoldsExactly(collateralUsd, b, c);
    assert !(c.targetLTV < c.targetLTV * 0.8);
  }

  /** Without collateral there is never an action of any size, given a non-negative maximum. */
  lemma NoCollateralNoMove(borrowUsd: real, collateralUsd: real, r: Rates, c: AgentConfig)
    requires collateralUsd <= 0.0 && borrowUsd >= 0.0 && c.maxLTV >= 0.0 && c.targetLTV >= 0.0
    ensures Decide(collateralUsd, borrowUsd, r, c).Hold?
  {
    assert c.targetLTV * collateralUsd <= 0.0;
  }
}
