/** Constant-product quotes: the 997/1000 form of computeV2AmountOut
    (src/chains/evm/tools/execute.ts) and the form of estimateSimplePoolSwap
    (src/chains/near/ref.ts), which floors the fee first. The code only quotes;
    the reserve update (x + d, y - out) of a trade is supplied here. */
module SwapMath {
  import opened Outcomes
  import opened Numerals
  import opened JsText

  // ---- the quotes ----

  function ComputeV2AmountOut(amountIn: int, reserveIn: int, reserveOut: int): int {
    if amountIn <= 0 || reserveIn <= 0 || reserveOut <= 0 then 0
    else
      var amountInWithFee := amountIn * 997;
      amountInWithFee * reserveOut / (reserveIn * 1000 + amountInWithFee)
  }

  const FEE_DIVISOR := 10000

  /** parseFeeBps on a finite fee. */
  function ParseFeeBps(rawFee: real): (bps: nat)
    ensures bps <= FEE_DIVISOR
    ensures 0.0 <= rawFee <= 10000.0 ==> bps as real <= rawFee < bps as real + 1.0
    ensures (rawFee < 0.0 ==> bps == 0) && (rawFee > 10000.0 ==> bps == FEE_DIVISOR)
  {
    if rawFee.Floor < 0 then 0 else if rawFee.Floor > FEE_DIVISOR then FEE_DIVISOR else rawFee.Floor
  }

  function AfterFee(amountIn: nat, feeBps: nat): nat
    requires feeBps <= FEE_DIVISOR
  {
    MulMono(0, amountIn, FEE_DIVISOR - feeBps);
    amountIn * (FEE_DIVISOR - feeBps) / FEE_DIVISOR
  }

  /** estimateSimplePoolSwap once the two reserves are read. */
  function RefAmountOut(amountIn: nat, reserveIn: int, reserveOut: int, feeBps: nat): int
    requires feeBps <= FEE_DIVISOR
  {
    if reserveIn <= 0 || reserveOut <= 0 then 0
    else
      var amountInAfterFee := AfterFee(amountIn, feeBps);
      if amountInAfterFee <= 0 then 0
      else amountInAfterFee * reserveOut / (reserveIn + amountInAfterFee)
  }

  /** The input after the fee is the largest whole amount that leaves the pool its share. */
  lemma AfterFeeIsFloor(amountIn: nat, feeBps: nat)
    requires feeBps <= FEE_DIVISOR
    ensures forall a: int :: a <= AfterFee(amountIn, feeBps) <==> a * 10000 <= amountIn * (10000 - feeBps)
  {
    var n := amountIn * (FEE_DIVISOR - feeBps);
    assert AfterFee(amountIn, feeBps) == n / FEE_DIVISOR;
  }

  // ---- the common curve ----

  /** The output for effective input a against reserves x and y, all at one scale. */
  function Out(x: nat, y: nat, a: nat): nat
    requires x > 0
  {
    Quotient(a * y, x + a)
  }

  lemma QuotientIs(n: nat, m: nat)
    requires m > 0
    ensures n / m == Quotient(n, m)
  {
  }

  lemma V2IsOut(d: nat, x: nat, y: nat)
    requires x > 0 && y > 0
    ensures ComputeV2AmountOut(d, x, y) == Out(1000 * x, y, 997 * d)
  {
    if d > 0 {
      MulMono(0, d * 997, y);
      QuotientIs(d * 997 * y, x * 1000 + d * 997);
    } else {
      DivUnique(0, 1000 * x, 0, 0);
    }
  }

  lemma RefIsOut(d: nat, x: nat, y: nat, feeBps: nat)
    requires x > 0 && y > 0 && feeBps <= FEE_DIVISOR
    ensures RefAmountOut(d, x, y, feeBps) == Out(x, y, AfterFee(d, feeBps))
  {
    hide AfterFee;
    var a := AfterFee(d, feeBps);
    if a > 0 {
      MulMono(0, a, y);
      QuotientIs(a * y, x + a);
    } else {
      DivUnique(0, x, 0, 0);
    }
  }

  /** Out is the largest o with o * (x + a) <= a * y. */
  lemma OutIsLargest(x: nat, y: nat, a: nat, o: int)
    requires x > 0
    ensures o <= Out(x, y, a) <==> o * (x + a) <= a * y
  {
    MulMono(0, a, y);
    DivMod(a * y, x + a);
    var q := Out(x, y, a);
    if o <= q {
      MulMono(o, q, x + a);
    } else {
      MulMono(q + 1, o, x + a);
      Distribute(q, 1, 1, x + a);
    }
  }

  lemma OutBelowReserve(x: nat, y: nat, a: nat)
    requires x > 0 && y > 0
    ensures Out(x, y, a) < y
  {
    OutIsLargest(x, y, a, y);
    assert y * (x + a) == y * x + a * y;
    assert y * x > 0;
  }

  /** Two trades in a row give at most what one trade of the joint input gives. */
  lemma SplitOut(x: nat, y: nat, a1: nat, a2: nat, x2: nat, a: nat)
    requires x > 0 && y > 0 && x2 >= x + a1 && a >= a1 + a2
    ensures Out(x, y, a1) < y && Out(x, y, a1) + Out(x2, y - Out(x, y, a1), a2) <= Out(x, y, a)
  {
    OutBelowReserve(x, y, a1);
    var o1 := Out(x, y, a1);
    var o2 := Out(x2, y - o1, a2);
    OutIsLargest(x, y, a1, o1);
    OutIsLargest(x2, y - o1, a2, o2);
    OutBelowReserve(x2, y - o1, a2);
    SplitArithmetic(x, y, a1, a2, x2, a, o1, o2);
    OutIsLargest(x, y, a, o1 + o2);
  }

  lemma Products(u: int, v: int, k: int)
    ensures (u + v) * k == u * k + v * k && k * (u + v) == k * u + k * v && u * k == k * u
  {
  }

  lemma SplitArithmetic(x: nat, y: nat, a1: nat, a2: nat, x2: nat, a: nat, o1: nat, o2: nat)
    requires o1 * (x + a1) <= a1 * y && o2 * (x2 + a2) <= a2 * (y - o1)
    requires x2 >= x + a1 && a >= a1 + a2 && o1 + o2 <= y
    ensures (o1 + o2) * (x + a) <= a * y
  {
    var b, rest, o := x + a1, a - (a1 + a2), o1 + o2;
    assert o * (x + a) == o1 * b + o1 * a2 + o2 * (b + a2) + o * rest by {
      assert x + a == b + a2 + rest;
      Products(b + a2, rest, o);
      Products(o1, o2, b + a2);
      Products(b, a2, o1);
    }
    assert o2 * (b + a2) <= a2 * y - o1 * a2 by {
      MulMono(b + a2, x2 + a2, o2);
      assert (b + a2) * o2 <= (x2 + a2) * o2;
      Products(y - o1, o1, a2);
    }
    assert o * rest <= y * rest by { MulMono(o, y, rest); }
    assert a * y == a1 * y + a2 * y + y * rest by {
      assert a == a1 + a2 + rest;
      Products(a1 + a2, rest, y);
      Products(a1, a2, y);
    }
  }

  /** The product of the reserves does not fall when a or more is paid in. */
  lemma OutKeepsProduct(x: nat, y: nat, a: nat, x2: nat)
    requires x > 0 && y > 0 && x2 >= x + a
    ensures x2 * (y - Out(x, y, a)) >= x * y
  {
    var o := Out(x, y, a);
    OutIsLargest(x, y, a, o);
    OutBelowReserve(x, y, a);
    assert (x + a) * (y - o) == x * y + a * y - o * (x + a);
    MulMono(x + a, x2, y - o);
  }

  // ---- pools and trades ----

  datatype Fee = V2 | Ref(bps: nat)
  datatype Pool = Pool(x: nat, y: nat)
  datatype Trade = Forward(d: nat) | Backward(d: nat)

  predicate GoodFee(fee: Fee) {
    fee.Ref? ==> fee.bps <= FEE_DIVISOR
  }

  predicate Live(p: Pool) {
    p.x > 0 && p.y > 0
  }

  function Quote(fee: Fee, p: Pool, d: nat): int
    requires GoodFee(fee)
  {
    match fee
    case V2 => ComputeV2AmountOut(d, p.x, p.y)
    case Ref(bps) => RefAmountOut(d, p.x, p.y, bps)
  }

  lemma QuoteInRange(fee: Fee, p: Pool, d: nat)
    requires GoodFee(fee) && Live(p)
    ensures 0 <= Quote(fee, p, d) < p.y
  {
    if fee.V2? {
      V2IsOut(d, p.x, p.y);
      OutBelowReserve(1000 * p.x, p.y, 997 * d);
    } else {
      RefIsOut(d, p.x, p.y, fee.bps);
      OutBelowReserve(p.x, p.y, AfterFee(d, fee.bps));
    }
  }

  function Flip(p: Pool): Pool { Pool(p.y, p.x) }

  function Sell(fee: Fee, p: Pool, d: nat): (q: Pool)
    requires GoodFee(fee) && Live(p)
    ensures Live(q) && q.x == p.x + d && q.y == p.y - Quote(fee, p, d)
  {
    QuoteInRange(fee, p, d);
    Pool(p.x + d, p.y - Quote(fee, p, d))
  }

  function Apply(fee: Fee, p: Pool, t: Trade): (q: Pool)
    requires GoodFee(fee) && Live(p)
    ensures Live(q)
  {
    match t
    case Forward(d) => Sell(fee, p, d)
    case Backward(d) => Flip(Sell(fee, Flip(p), d))
  }

  function Run(fee: Fee, p: Pool, ts: seq<Trade>): (q: Pool)
    requires GoodFee(fee) && Live(p)
    ensures Live(q)
    decreases |ts|
  {
    if ts == [] then p else Run(fee, Apply(fee, p, ts[0]), ts[1..])
  }

  lemma AfterFeeAtMost(d: nat, feeBps: nat)
    requires feeBps <= FEE_DIVISOR
    ensures AfterFee(d, feeBps) <= d
  {
    MulMono(FEE_DIVISOR - feeBps, FEE_DIVISOR, d);
  }

  lemma SellKeepsProduct(fee: Fee, p: Pool, d: nat)
    requires GoodFee(fee) && Live(p)
    ensures Sell(fee, p, d).x * Sell(fee, p, d).y >= p.x * p.y
  {
    if fee.V2? {
      V2IsOut(d, p.x, p.y);
      OutKeepsProduct(1000 * p.x, p.y, 997 * d, 1000 * (p.x + d));
      var q := Sell(fee, p, d);
      assert 1000 * (q.x * q.y) >= 1000 * (p.x * p.y);
    } else {
      RefIsOut(d, p.x, p.y, fee.bps);
      AfterFeeAtMost(d, fee.bps);
      OutKeepsProduct(p.x, p.y, AfterFee(d, fee.bps), p.x + d);
    }
  }

  lemma ApplyKeepsProduct(fee: Fee, p: Pool, t: Trade)
    requires GoodFee(fee) && Live(p)
    ensures Apply(fee, p, t).x * Apply(fee, p, t).y >= p.x * p.y
  {
    hide Sell;
    if t.Forward? { SellKeepsProduct(fee, p, t.d); } else { SellKeepsProduct(fee, Flip(p), t.d); }
  }

  /** Over any run of trades in both directions the product never falls. */
  lemma {:induction false} RunKeepsProduct(fee: Fee, p: Pool, ts: seq<Trade>)
    requires GoodFee(fee) && Live(p)
    ensures Run(fee, p, ts).x * Run(fee, p, ts).y >= p.x * p.y
    decreases |ts|
  {
    if ts != [] {
      ApplyKeepsProduct(fee, p, ts[0]);
      hide Apply, GoodFee;
      RunKeepsProduct(fee, Apply(fee, p, ts[0]), ts[1..]);
    }
  }

  /** No run of trades leaves the pool poorer in one token and no richer in the other. */
  lemma NoFreeLunch(fee: Fee, p: Pool, ts: seq<Trade>)
    requires GoodFee(fee) && Live(p)
    ensures var q := Run(fee, p, ts);
            !(q.x <= p.x && q.y < p.y) && !(q.x < p.x && q.y <= p.y)
  {
    var q := Run(fee, p, ts);
    RunKeepsProduct(fee, p, ts);
    hide Run;
    NotBothPoorer(p.x, p.y, q.x, q.y);
  }

  lemma NotBothPoorer(x: nat, y: nat, x': nat, y': nat)
    requires x > 0 && y > 0 && x' * y' >= x * y
    ensures !(x' <= x && y' < y) && !(x' < x && y' <= y)
  {
    if x' <= x && y' < y {
      MulMono(x', x, y');
      MulMono(y' + 1, y, x);
    } else if x' < x && y' <= y {
      MulMono(x' + 1, x, y');
      MulMono(y', y, x);
    }
  }

  /** Swapping there and straight back never returns more than was put in. */
  lemma RoundTripLoses(fee: Fee, p: Pool, d: nat)
    requires GoodFee(fee) && Live(p)
    ensures var out := Quote(fee, p, d);
      out >= 0 && Quote(fee, Flip(Sell(fee, p, d)), out) <= d
  {
    QuoteInRange(fee, p, d);
    var out := Quote(fee, p, d);
    var ts := [Forward(d), Backward(out)];
    assert ts[1..] == [Backward(out)] && ts[1..][1..] == [];
    var q := Apply(fee, Sell(fee, p, d), Backward(out));
    assert Run(fee, p, ts) == q by {
      assert Run(fee, q, []) == q;
      assert Run(fee, Sell(fee, p, d), [Backward(out)]) == q;
    }
    NoFreeLunch(fee, p, ts);
  }

  // ---- splitting a trade ----

  lemma AfterFeeSplit(d1: nat, d2: nat, feeBps: nat)
    requires feeBps <= FEE_DIVISOR
    ensures AfterFee(d1, feeBps) + AfterFee(d2, feeBps) <= AfterFee(d1 + d2, feeBps)
  {
    var k := FEE_DIVISOR - feeBps;
    assert (d1 + d2) * k == d1 * k + d2 * k;
  }

  /** Two pieces: out(d1), then out(d2) on the updated pool, is at most out(d1 + d2). */
  lemma SplitTwo(fee: Fee, p: Pool, d1: nat, d2: nat)
    requires GoodFee(fee) && Live(p)
    ensures Quote(fee, p, d1) + Quote(fee, Sell(fee, p, d1), d2) <= Quote(fee, p, d1 + d2)
  {
    var q := Sell(fee, p, d1);
    if fee.V2? {
      V2IsOut(d1, p.x, p.y);
      V2IsOut(d2, q.x, q.y);
      V2IsOut(d1 + d2, p.x, p.y);
      SplitOut(1000 * p.x, p.y, 997 * d1, 997 * d2, 1000 * q.x, 997 * (d1 + d2));
    } else {
      RefIsOut(d1, p.x, p.y, fee.bps);
      RefIsOut(d2, q.x, q.y, fee.bps);
      RefIsOut(d1 + d2, p.x, p.y, fee.bps);
      AfterFeeAtMost(d1, fee.bps);
      AfterFeeSplit(d1, d2, fee.bps);
      hide AfterFee;
      SplitOut(p.x, p.y, AfterFee(d1, fee.bps), AfterFee(d2, fee.bps), q.x, AfterFee(d1 + d2, fee.bps));
    }
  }

  function Sum(ds: seq<nat>): nat {
    if ds == [] then 0 else ds[0] + Sum(ds[1..])
  }

  /** The total output of selling the pieces one after another. */
  function SellAll(fee: Fee, p: Pool, ds: seq<nat>): int
    requires GoodFee(fee) && Live(p)
    decreases |ds|
  {
    if ds == [] then 0 else Quote(fee, p, ds[0]) + SellAll(fee, Sell(fee, p, ds[0]), ds[1..])
  }

  /** However an input is split, the pieces never fetch more than the whole. */
  lemma {:induction false} SplittingNeverWins(fee: Fee, p: Pool, ds: seq<nat>)
    requires GoodFee(fee) && Live(p)
    ensures SellAll(fee, p, ds) <= Quote(fee, p, Sum(ds))
    decreases |ds|
  {
    hide Quote, Sell, GoodFee;
    if ds == [] {
      QuoteInRange(fee, p, 0);
    } else {
      SplittingNeverWins(fee, Sell(fee, p, ds[0]), ds[1..]);
      SplitTwo(fee, p, ds[0], Sum(ds[1..]));
    }
  }

  // ---- the quote is exactly the largest output the pool accepts ----

  /** The adjusted invariant check of section 3.2.1 of the Uniswap v2 Core
      whitepaper, for amount d in of one token and `out` of the other paid out. */
  predicate PassesV2Check(x0: int, y0: int, d: int, out: int) {
    var x1, y1 := x0 + d, y0 - out;
    (1000 * x1 - 3 * d) * (1000 * y1) >= 1000000 * x0 * y0
  }

  lemma V2QuoteIsLargest(x: nat, y: nat, d: nat, out: int)
    requires x > 0 && y > 0
    ensures PassesV2Check(x, y, d, out) <==> out <= ComputeV2AmountOut(d, x, y)
  {
    V2IsOut(d, x, y);
    OutIsLargest(1000 * x, y, 997 * d, out);
    var s := 1000 * x + 997 * d;
    assert (1000 * (x + d) - 3 * d) * (1000 * (y - out)) == 1000 * (s * (y - out));
    assert s * (y - out) == 1000 * (x * y) + 997 * d * y - out * s;
    assert 1000000 * x * y == 1000000 * (x * y);
  }

  /** The NEAR form: the largest output that keeps the product with the input after fee. */
  lemma RefQuoteIsLargest(x: nat, y: nat, d: nat, feeBps: nat, out: int)
    requires x > 0 && y > 0 && feeBps <= FEE_DIVISOR
    ensures (x + AfterFee(d, feeBps)) * (y - out) >= x * y <==> out <= RefAmountOut(d, x, y, feeBps)
  {
    RefIsOut(d, x, y, feeBps);
    hide AfterFee;
    var a := AfterFee(d, feeBps);
    OutIsLargest(x, y, a, out);
    assert (x + a) * (y - out) == x * y + a * y - out * (x + a);
  }

  // ---- slippage ----

  /** parseSlippageBps; None when not given, Some(None) when not finite. */
  function ParseSlippageBps(slippageBps: Option<Option<real>>): (bps: Option<nat>)
    ensures slippageBps.None? ==> bps == Some(50)
    ensures bps.None? <==> slippageBps.Some? && (slippageBps.value.None? || !(0.0 <= slippageBps.value.value <= 5000.0))
    ensures bps.Some? && slippageBps.Some? ==>
      slippageBps.value.Some? && bps.value as real <= slippageBps.value.value < bps.value as real + 1.0
  {
    match slippageBps
    case None => Some(50)
    case Some(None) => None
    case Some(Some(v)) => if v < 0.0 || v > 5000.0 then None else Some(v.Floor)
  }

  function ApplySlippage(amountOut: nat, bps: nat): nat {
    if FEE_DIVISOR - bps <= 0 then 0
    else
      MulMono(0, amountOut, FEE_DIVISOR - bps);
      amountOut * (FEE_DIVISOR - bps) / FEE_DIVISOR
  }

  /** quotePancakeV2Swap's minimum: the output less the floored penalty. */
  function PancakeMin(amountOut: nat, bps: nat): int {
    amountOut - amountOut * bps / 10000
  }

  /** The NEAR minimum is the largest amount within the tolerance, the PancakeSwap
      minimum the smallest that respects it; they differ by at most one unit, and
      not at all exactly when the tolerance is a whole number of units. */
  lemma SlippageRounding(amountOut: nat, bps: nat)
    requires bps <= 10000
    ensures forall m: int :: m <= ApplySlippage(amountOut, bps) <==> m * 10000 <= amountOut * (10000 - bps)
    ensures forall m: int :: m >= PancakeMin(amountOut, bps) <==> m * 10000 >= amountOut * (10000 - bps)
    ensures ApplySlippage(amountOut, bps) <= PancakeMin(amountOut, bps) <= ApplySlippage(amountOut, bps) + 1
    ensures ApplySlippage(amountOut, bps) == PancakeMin(amountOut, bps) <==> amountOut * bps % 10000 == 0
  {
    var n, k := amountOut * (10000 - bps), amountOut * bps;
    assert n == amountOut * 10000 - k;
    assert bps == 10000 ==> n == 0;
    assert ApplySlippage(amountOut, bps) == n / 10000;
  }

  datatype QuoteError = BadAmount | WrongPair | NoLiquidity | BadSlippage

  datatype PancakeQuote = PancakeQuote(amountOut: nat, amountOutMin: nat, reserveIn: nat, reserveOut: nat)

  /** `Math.trunc`: the whole number next to v on the side of zero. */
  function Truncate(v: real): (n: int)
    ensures v >= 0.0 ==> n as real <= v < n as real + 1.0
    ensures v < 0.0 ==> n as real - 1.0 < v <= n as real
  {
    if v >= 0.0 then v.Floor else -(-v).Floor
  }

  /** quotePancakeV2Swap after its contract reads: which reserve is the input's is
      decided by comparing addresses in lower case. */
  method QuotePancakeV2Swap(amountIn: int, tokenIn: string, token0: string, token1: string, reserve0: nat,
                            reserve1: nat, slippageBps: Option<Option<real>>)
    returns (r: Result<PancakeQuote, QuoteError>)
    ensures var first, second := ToLower(tokenIn) == ToLower(token0), ToLower(tokenIn) == ToLower(token1);
      var (x, y) := if first then (reserve0, reserve1) else (reserve1, reserve0);
      var bps := match slippageBps case None => 50 case Some(None) => 0 case Some(Some(v)) => Truncate(v);
      match r
      case Err(BadAmount) => amountIn <= 0
      case Err(WrongPair) => amountIn > 0 && !first && !second
      case Err(NoLiquidity) => amountIn > 0 && (first || second) && !(x > 0 && y > 0 && PassesV2Check(x, y, amountIn, 1))
      case Err(BadSlippage) =>
        amountIn > 0 && (first || second) && x > 0 && y > 0 && PassesV2Check(x, y, amountIn, 1) && !(0 < bps < 10000)
      case Ok(q) =>
        && amountIn > 0 && (first || second) && 0 < bps < 10000 && q.reserveIn == x > 0 && q.reserveOut == y > 0
        && 0 < q.amountOut && PassesV2Check(x, y, amountIn, q.amountOut)
        && !PassesV2Check(x, y, amountIn, q.amountOut + 1)
        && 0 < q.amountOutMin <= q.amountOut
        && (q.amountOutMin - 1) * 10000 < q.amountOut * (10000 - bps) <= q.amountOutMin * 10000
  {
    if amountIn <= 0 {
      return Err(BadAmount);
    }
    var reserveIn, reserveOut;
    var normalized := ToLower(tokenIn);
    if normalized == ToLower(token0) {
      reserveIn, reserveOut := reserve0, reserve1;
    } else if normalized == ToLower(token1) {
      reserveIn, reserveOut := reserve1, reserve0;
    } else {
      return Err(WrongPair);
    }
    var amountOut := ComputeV2AmountOut(amountIn, reserveIn, reserveOut);
    hide ToLower, PassesV2Check, ComputeV2AmountOut;
    if reserveIn > 0 && reserveOut > 0 {
      V2QuoteIsLargest(reserveIn, reserveOut, amountIn, 1);
      V2QuoteIsLargest(reserveIn, reserveOut, amountIn, amountOut);
      V2QuoteIsLargest(reserveIn, reserveOut, amountIn, amountOut + 1);
    }
    if amountOut <= 0 {
      return Err(NoLiquidity);
    }
    assert reserveIn > 0 && reserveOut > 0 by {
      DeadPool(amountIn, reserveIn, reserveOut);
    }
    if slippageBps == Some(None) {
      return Err(BadSlippage);
    }
    var bps := if slippageBps.None? then 50 else Truncate(slippageBps.value.value);
    if bps <= 0 || bps >= 10000 {
      return Err(BadSlippage);
    }
    var slippagePenalty := amountOut * bps / 10000;
    var amountOutMin := amountOut - slippagePenalty;
    PenaltyBounds(amountOut, bps);
    return Ok(PancakeQuote(amountOut, amountOutMin, reserveIn, reserveOut));
  }

  lemma DeadPool(d: int, x: int, y: int)
    ensures x <= 0 || y <= 0 ==> ComputeV2AmountOut(d, x, y) == 0
  {
  }

  lemma PenaltyBounds(out: nat, bps: nat)
    requires out > 0 && 0 < bps < 10000
    ensures var min := out - out * bps / 10000;
      0 < min <= out && (min - 1) * 10000 < out * (10000 - bps) <= min * 10000
  {
    MulMono(bps + 1, 10000, out);
    MulMono(0, bps, out);
    assert out * (10000 - bps) == out * 10000 - out * bps;
  }
}
