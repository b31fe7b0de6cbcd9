/** The pool search of getRefSwapQuote (src/chains/near/ref.ts) when no pool is named:
    the best simple pool by local estimate, else the best pool by the contract's
    quote, else the best two-hop route found through the token index.
    The contract call `get_return` is a fixed function; None is a call that throws. */
module RefRouting {
  import opened Outcomes
  import opened RefPools
  import opened Scan
  import SwapMath

  type Rpc = (int, string, string, nat) -> Option<nat>

  /** One search: the pools fetched, the resolved token candidates, the amount. */
  datatype Search = Search(rpc: Rpc, pools: seq<RefPoolView>, ins: seq<string>, outs: seq<string>, amountIn: nat)

  datatype Direct = Direct(pool: RefPoolView, tokenIn: string, tokenOut: string)
  datatype TwoHop = TwoHop(first: RefPoolView, second: RefPoolView, tokenIn: string, tokenMid: string,
                           tokenOut: string, amountMid: nat)

  datatype Tier = SimpleTier | DirectTier

  datatype Source = BestDirectSimplePool | BestDirectPool | BestTwoHopPoolRoute
  datatype Action = Action(poolId: int, tokenIn: string, tokenOut: string, amountIn: nat)
  datatype RefSwapQuote = RefSwapQuote(poolId: int, tokenIn: string, tokenOut: string, amountIn: nat, amountOut: int,
                                       minAmountOut: int, feeBps: nat, source: Source, actions: seq<Action>)
  datatype RouteError = CallFailed | NoRoute

  // ---- the direct tiers ----

  function DirectAmount(s: Search, tier: Tier, pool: RefPoolView, tokenIn: string, tokenOut: string): Option<int> {
    if tier.SimpleTier? then EstimateSimplePoolSwap(pool, tokenIn, tokenOut, s.amountIn)
    else
      var quoted := s.rpc(pool.id, tokenIn, tokenOut, s.amountIn);
      if quoted.None? then None else Some(quoted.value)
  }

  function DirectVisit(s: Search, tier: Tier, pool: RefPoolView, tokenIn: string, tokenOut: string)
    : seq<Visit<Direct>>
  {
    if tokenIn == tokenOut || tokenOut !in pool.tokenIds then []
    else
      var amount := DirectAmount(s, tier, pool, tokenIn, tokenOut);
      if amount.None? then [Thrown]
      else if amount.value <= 0 then []
      else [Hit(Scored(Direct(pool, tokenIn, tokenOut), amount.value))]
  }

  function DirectOuts(s: Search, tier: Tier, pool: RefPoolView, tokenIn: string): string -> seq<Visit<Direct>> {
    tokenOut => DirectVisit(s, tier, pool, tokenIn, tokenOut)
  }

  function DirectIns(s: Search, tier: Tier, pool: RefPoolView): string -> seq<Visit<Direct>> {
    tokenIn =>
      if tokenIn !in pool.tokenIds then [] else FlatMap(s.outs, DirectOuts(s, tier, pool, tokenIn))
  }

  function DirectPools(s: Search, tier: Tier): RefPoolView -> seq<Visit<Direct>> {
    (pool: RefPoolView) =>
      if tier.SimpleTier? && !IsSimplePool(pool) then [] else FlatMap(s.ins, DirectIns(s, tier, pool))
  }

  function DirectVisits(s: Search, tier: Tier): seq<Visit<Direct>> {
    FlatMap(s.pools, DirectPools(s, tier))
  }

  // The three nested loops of a direct tier, innermost first. `best` is the best hit so far.

  method ScanDirectOuts(s: Search, tier: Tier, pool: RefPoolView, tokenIn: string, start: Option<Scored<Direct>>)
    returns (r: Option<Option<Scored<Direct>>>)
    ensures r == Settle(start, FlatMap(s.outs, DirectOuts(s, tier, pool, tokenIn)))
  {
    var best := start;
    assert s.outs[0..] == s.outs;
    for k := 0 to |s.outs|
      invariant Settle(start, FlatMap(s.outs, DirectOuts(s, tier, pool, tokenIn)))
             == Settle(best, FlatMap(s.outs[k..], DirectOuts(s, tier, pool, tokenIn)))
    {
      var tokenOut := s.outs[k];
      LoopTurn(best, s.outs, k, DirectOuts(s, tier, pool, tokenIn));
      if tokenIn == tokenOut { continue; }
      if tokenOut !in pool.tokenIds { continue; }
      var amount := DirectAmount(s, tier, pool, tokenIn, tokenOut);
      if amount.None? {
        return None;
      }
      if amount.value <= 0 { continue; }
      if best.None? || amount.value > best.value.amount {
        best := Some(Scored(Direct(pool, tokenIn, tokenOut), amount.value));
      }
    }
    return Some(best);
  }

  method ScanDirectIns(s: Search, tier: Tier, pool: RefPoolView, start: Option<Scored<Direct>>)
    returns (r: Option<Option<Scored<Direct>>>)
    ensures r == Settle(start, FlatMap(s.ins, DirectIns(s, tier, pool)))
  {
    var best := start;
    assert s.ins[0..] == s.ins;
    for j := 0 to |s.ins|
      invariant Settle(start, FlatMap(s.ins, DirectIns(s, tier, pool)))
             == Settle(best, FlatMap(s.ins[j..], DirectIns(s, tier, pool)))
    {
      var tokenIn := s.ins[j];
      LoopTurn(best, s.ins, j, DirectIns(s, tier, pool));
      if tokenIn !in pool.tokenIds { continue; }
      var next := ScanDirectOuts(s, tier, pool, tokenIn, best);
      if next.None? {
        return None;
      }
      best := next.value;
    }
    return Some(best);
  }

  method ScanDirect(s: Search, tier: Tier) returns (r: Option<Option<Scored<Direct>>>)
    ensures r == Settle(None, DirectVisits(s, tier))
  {
    var best: Option<Scored<Direct>> := None;
    assert s.pools[0..] == s.pools;
    for i := 0 to |s.pools|
      invariant Settle(None, DirectVisits(s, tier)) == Settle(best, FlatMap(s.pools[i..], DirectPools(s, tier)))
    {
      var pool := s.pools[i];
      LoopTurn(best, s.pools, i, DirectPools(s, tier));
      if tier.SimpleTier? && !IsSimplePool(pool) { continue; }
      var next := ScanDirectIns(s, tier, pool, best);
      if next.None? {
        return None;
      }
      best := next.value;
    }
    return Some(best);
  }

  // ---- the two-hop tier ----

  function LastVisit(s: Search, first: RefPoolView, tokenIn: string, tokenMid: string, amountMid: nat,
                     second: RefPoolView): string -> seq<Visit<TwoHop>>
  {
    tokenOut =>
      if tokenOut == tokenMid || tokenOut == tokenIn || tokenOut !in second.tokenIds then []
      else
        var amountOut := s.rpc(second.id, tokenMid, tokenOut, amountMid);
        if amountOut.None? then [Thrown]
        else if amountOut.value <= 0 then []
        else [Hit(Scored(TwoHop(first, second, tokenIn, tokenMid, tokenOut, amountMid), amountOut.value))]
  }

  function SecondVisits(s: Search, first: RefPoolView, tokenIn: string, tokenMid: string, amountMid: nat)
    : RefPoolView -> seq<Visit<TwoHop>>
  {
    (second: RefPoolView) =>
      if second.id == first.id then []
      else FlatMap(s.outs, LastVisit(s, first, tokenIn, tokenMid, amountMid, second))
  }

  function MidVisits(s: Search, first: RefPoolView, tokenIn: string): string -> seq<Visit<TwoHop>> {
    tokenMid =>
      if tokenMid == tokenIn || PoolsWith(s.pools, tokenMid) == [] then []
      else
        var amountMid := s.rpc(first.id, tokenIn, tokenMid, s.amountIn);
        if amountMid.None? then [Thrown]
        else if amountMid.value <= 0 then []
        else FlatMap(PoolsWith(s.pools, tokenMid), SecondVisits(s, first, tokenIn, tokenMid, amountMid.value))
  }

  function FirstVisits(s: Search, tokenIn: string): RefPoolView -> seq<Visit<TwoHop>> {
    (first: RefPoolView) => FlatMap(first.tokenIds, MidVisits(s, first, tokenIn))
  }

  function InVisits(s: Search): string -> seq<Visit<TwoHop>> {
    tokenIn => FlatMap(PoolsWith(s.pools, tokenIn), FirstVisits(s, tokenIn))
  }

  function TwoHopVisits(s: Search): seq<Visit<TwoHop>> {
    FlatMap(s.ins, InVisits(s))
  }

  // The five nested loops, innermost first.

  method ScanLast(s: Search, first: RefPoolView, tokenIn: string, tokenMid: string, amountMid: nat,
                  second: RefPoolView, start: Option<Scored<TwoHop>>)
    returns (r: Option<Option<Scored<TwoHop>>>)
    ensures r == Settle(start, FlatMap(s.outs, LastVisit(s, first, tokenIn, tokenMid, amountMid, second)))
  {
    var best := start;
    ghost var f := LastVisit(s, first, tokenIn, tokenMid, amountMid, second);
    assert s.outs[0..] == s.outs;
    for k := 0 to |s.outs|
      invariant Settle(start, FlatMap(s.outs, f)) == Settle(best, FlatMap(s.outs[k..], f))
    {
      var tokenOut := s.outs[k];
      LoopTurn(best, s.outs, k, f);
      if tokenOut == tokenMid || tokenOut == tokenIn { continue; }
      if tokenOut !in second.tokenIds { continue; }
      var amountOut := s.rpc(second.id, tokenMid, tokenOut, amountMid);
      if amountOut.None? {
        return None;
      }
      if amountOut.value <= 0 { continue; }
      if best.None? || amountOut.value > best.value.amount {
        best := Some(Scored(TwoHop(first, second, tokenIn, tokenMid, tokenOut, amountMid), amountOut.value));
      }
    }
    return Some(best);
  }

  method ScanSeconds(s: Search, first: RefPoolView, tokenIn: string, tokenMid: string, amountMid: nat,
                     seconds: seq<RefPoolView>, start: Option<Scored<TwoHop>>)
    returns (r: Option<Option<Scored<TwoHop>>>)
    ensures r == Settle(start, FlatMap(seconds, SecondVisits(s, first, tokenIn, tokenMid, amountMid)))
  {
    var best := start;
    ghost var f := SecondVisits(s, first, tokenIn, tokenMid, amountMid);
    assert seconds[0..] == seconds;
    for k := 0 to |seconds|
      invariant Settle(start, FlatMap(seconds, f)) == Settle(best, FlatMap(seconds[k..], f))
    {
      var second := seconds[k];
      LoopTurn(best, seconds, k, f);
      if second.id == first.id { continue; }
      var next := ScanLast(s, first, tokenIn, tokenMid, amountMid, second, best);
      if next.None? {
        return None;
      }
      best := next.value;
    }
    return Some(best);
  }

  method ScanMids(s: Search, index: map<string, seq<RefPoolView>>, first: RefPoolView, tokenIn: string,
                  start: Option<Scored<TwoHop>>)
    returns (r: Option<Option<Scored<TwoHop>>>)
    requires forall t :: Lookup(index, t) == PoolsWith(s.pools, t)
    ensures r == Settle(start, FlatMap(first.tokenIds, MidVisits(s, first, tokenIn)))
  {
    var best := start;
    ghost var f := MidVisits(s, first, tokenIn);
    assert first.tokenIds[0..] == first.tokenIds;
    for k := 0 to |first.tokenIds|
      invariant Settle(start, FlatMap(first.tokenIds, f)) == Settle(best, FlatMap(first.tokenIds[k..], f))
    {
      var tokenMid := first.tokenIds[k];
      LoopTurn(best, first.tokenIds, k, f);
      if tokenMid == tokenIn { continue; }
      var secondPools := Lookup(index, tokenMid);
      if |secondPools| == 0 { continue; }
      var amountMid := s.rpc(first.id, tokenIn, tokenMid, s.amountIn);
      if amountMid.None? {
        return None;
      }
      if amountMid.value <= 0 { continue; }
      var next := ScanSeconds(s, first, tokenIn, tokenMid, amountMid.value, secondPools, best);
      if next.None? {
        return None;
      }
      best := next.value;
    }
    return Some(best);
  }

  method ScanFirsts(s: Search, index: map<string, seq<RefPoolView>>, tokenIn: string, start: Option<Scored<TwoHop>>)
    returns (r: Option<Option<Scored<TwoHop>>>)
    requires forall t :: Lookup(index, t) == PoolsWith(s.pools, t)
    ensures r == Settle(start, InVisits(s)(tokenIn))
  {
    var best := start;
    var firsts := Lookup(index, tokenIn);
    ghost var f := FirstVisits(s, tokenIn);
    assert firsts[0..] == firsts;
    for k := 0 to |firsts|
      invariant Settle(start, FlatMap(firsts, f)) == Settle(best, FlatMap(firsts[k..], f))
    {
      LoopTurn(best, firsts, k, f);
      var next := ScanMids(s, index, firsts[k], tokenIn, best);
      if next.None? {
        return None;
      }
      best := next.value;
    }
    return Some(best);
  }

  method ScanTwoHop(s: Search) returns (r: Option<Option<Scored<TwoHop>>>)
    ensures r == Settle(None, TwoHopVisits(s))
  {
    var index := CollectPoolsByTokenId(s.pools);
    var best: Option<Scored<TwoHop>> := None;
    ghost var f := InVisits(s);
    assert s.ins[0..] == s.ins;
    for k := 0 to |s.ins|
      invariant Settle(None, FlatMap(s.ins, f)) == Settle(best, FlatMap(s.ins[k..], f))
    {
      LoopTurn(best, s.ins, k, f);
      var next := ScanFirsts(s, index, s.ins[k], best);
      if next.None? {
        return None;
      }
      best := next.value;
    }
    return Some(best);
  }

  // ---- the quote ----

  function DirectQuote(s: Search, best: Scored<Direct>, source: Source, bps: nat): RefSwapQuote
    requires best.amount >= 0
  {
    var d := best.item;
    RefSwapQuote(d.pool.id, d.tokenIn, d.tokenOut, s.amountIn, best.amount, SwapMath.ApplySlippage(best.amount, bps),
                 SwapMath.ParseFeeBps(d.pool.totalFee), source,
                 [Action(d.pool.id, d.tokenIn, d.tokenOut, s.amountIn)])
  }

  function TwoHopQuote(s: Search, best: Scored<TwoHop>, bps: nat): RefSwapQuote
    requires best.amount >= 0
  {
    var h := best.item;
    RefSwapQuote(h.first.id, h.tokenIn, h.tokenOut, s.amountIn, best.amount, SwapMath.ApplySlippage(best.amount, bps),
                 SwapMath.ParseFeeBps(h.first.totalFee) + SwapMath.ParseFeeBps(h.second.totalFee),
                 BestTwoHopPoolRoute,
                 [Action(h.first.id, h.tokenIn, h.tokenMid, s.amountIn),
                  Action(h.second.id, h.tokenMid, h.tokenOut, h.amountMid)])
  }

  /** The tiers in order: a later one is reached only when the earlier ones found nothing. */
  function Expected(s: Search, bps: nat): Result<RefSwapQuote, RouteError> {
    SettledPositive(s);
    match Settle(None, DirectVisits(s, SimpleTier))
    case None => Err(CallFailed)
    case Some(Some(best)) => Ok(DirectQuote(s, best, BestDirectSimplePool, bps))
    case Some(None) =>
      match Settle(None, DirectVisits(s, DirectTier))
      case None => Err(CallFailed)
      case Some(Some(best)) => Ok(DirectQuote(s, best, BestDirectPool, bps))
      case Some(None) =>
        match Settle(None, TwoHopVisits(s))
        case None => Err(CallFailed)
        case Some(Some(best)) => Ok(TwoHopQuote(s, best, bps))
        case Some(None) => Err(NoRoute)
  }

  method GetRefSwapQuote(s: Search, bps: nat) returns (r: Result<RefSwapQuote, RouteError>)
    ensures r == Expected(s, bps)
  {
    SettledPositive(s);
    var bestSimple := ScanDirect(s, SimpleTier);
    if bestSimple.None? {
      return Err(CallFailed);
    }
    if bestSimple.value.Some? {
      return Ok(DirectQuote(s, bestSimple.value.value, BestDirectSimplePool, bps));
    }
    var bestDirect := ScanDirect(s, DirectTier);
    if bestDirect.None? {
      return Err(CallFailed);
    }
    if bestDirect.value.Some? {
      return Ok(DirectQuote(s, bestDirect.value.value, BestDirectPool, bps));
    }
    var bestTwoHop := ScanTwoHop(s);
    if bestTwoHop.None? {
      return Err(CallFailed);
    }
    if bestTwoHop.value.None? {
      return Err(NoRoute);
    }
    return Ok(TwoHopQuote(s, bestTwoHop.value.value, bps));
  }

  // ---- brute force ----

  /** No kind, an empty one, or that of simple pools. */
  predicate KindIsSimple(kind: Option<string>) {
    kind == None || kind == Some("") || kind == Some("SIMPLE_POOL")
  }

  lemma SimpleKind(pool: RefPoolView)
    ensures IsSimplePool(pool) <==> KindIsSimple(pool.poolKind)
  {
  }

  predicate DirectCandidate(s: Search, tier: Tier, d: Direct) {
    && d.pool in s.pools && d.tokenIn in s.ins && d.tokenOut in s.outs && d.tokenIn != d.tokenOut
    && d.tokenIn in d.pool.tokenIds && d.tokenOut in d.pool.tokenIds
    && (tier.SimpleTier? ==> KindIsSimple(d.pool.poolKind))
  }

  /** What a pool and token pair give: in the simple tier the most that keeps the product of
      the reserves the pool lists for these two tokens, else what the contract answers. */
  ghost predicate Gives(s: Search, tier: Tier, d: Direct, amount: int) {
    match tier
    case SimpleTier => PoolOffers(d.pool, d.tokenIn, d.tokenOut, s.amountIn, amount)
    case DirectTier => s.rpc(d.pool.id, d.tokenIn, d.tokenOut, s.amountIn).Some?
                       && s.rpc(d.pool.id, d.tokenIn, d.tokenOut, s.amountIn).value == amount
  }

  ghost predicate GivesThrows(s: Search, tier: Tier, d: Direct) {
    match tier
    case SimpleTier => PoolUnreadable(d.pool, d.tokenIn, d.tokenOut)
    case DirectTier => s.rpc(d.pool.id, d.tokenIn, d.tokenOut, s.amountIn) == None
  }

  lemma DirectAmountGives(s: Search, tier: Tier, d: Direct)
    ensures DirectAmount(s, tier, d.pool, d.tokenIn, d.tokenOut) == None <==> GivesThrows(s, tier, d)
    ensures forall amount | amount > 0 ::
              DirectAmount(s, tier, d.pool, d.tokenIn, d.tokenOut) == Some(amount) <==> Gives(s, tier, d, amount)
  {
    hide PoolOffers, PoolUnreadable, EstimateSimplePoolSwap;
    EstimateThrows(d.pool, d.tokenIn, d.tokenOut, s.amountIn);
    forall amount | amount > 0
      ensures DirectAmount(s, tier, d.pool, d.tokenIn, d.tokenOut) == Some(amount) <==> Gives(s, tier, d, amount)
    {
      EstimateIsOffer(d.pool, d.tokenIn, d.tokenOut, s.amountIn, amount);
    }
  }

  /** A pool and token pair that gives a positive amount. */
  ghost predicate DirectRoute(s: Search, tier: Tier, d: Direct, amount: int) {
    DirectCandidate(s, tier, d) && amount > 0 && Gives(s, tier, d, amount)
  }

  ghost predicate DirectThrows(s: Search, tier: Tier) {
    exists d :: DirectCandidate(s, tier, d) && GivesThrows(s, tier, d)
  }

  /** First hop: any pool listing the input, any other token it lists. */
  predicate FirstHop(s: Search, first: RefPoolView, tokenIn: string, tokenMid: string) {
    first in s.pools && tokenIn in s.ins && tokenIn in first.tokenIds && tokenMid in first.tokenIds
    && tokenMid != tokenIn
  }

  /** Two pools with different ids and a middle token that make a pair of hops. */
  predicate TwoHopCandidate(s: Search, h: TwoHop) {
    && FirstHop(s, h.first, h.tokenIn, h.tokenMid)
    && h.second in s.pools && h.second.id != h.first.id && h.tokenMid in h.second.tokenIds
    && h.tokenOut in s.outs && h.tokenOut in h.second.tokenIds
    && h.tokenOut != h.tokenMid && h.tokenOut != h.tokenIn
    && s.rpc(h.first.id, h.tokenIn, h.tokenMid, s.amountIn) == Some(h.amountMid) && h.amountMid > 0
  }

  predicate TwoHopRoute(s: Search, h: TwoHop, amount: int) {
    TwoHopCandidate(s, h) && amount > 0
    && s.rpc(h.second.id, h.tokenMid, h.tokenOut, h.amountMid).Some?
    && s.rpc(h.second.id, h.tokenMid, h.tokenOut, h.amountMid).value == amount
  }

  predicate FirstHopThrows(s: Search, first: RefPoolView, tokenIn: string, tokenMid: string) {
    FirstHop(s, first, tokenIn, tokenMid) && s.rpc(first.id, tokenIn, tokenMid, s.amountIn) == None
  }

  predicate LastHopThrows(s: Search, h: TwoHop) {
    TwoHopCandidate(s, h) && s.rpc(h.second.id, h.tokenMid, h.tokenOut, h.amountMid) == None
  }

  ghost predicate TwoHopThrows(s: Search) {
    || (exists first, tokenIn, tokenMid :: FirstHopThrows(s, first, tokenIn, tokenMid))
    || (exists h :: LastHopThrows(s, h))
  }

  // ---- the enumerations visit exactly the brute-force routes ----

  lemma DirectVisitOf(s: Search, tier: Tier, v: Visit<Direct>) returns (d: Direct)
    requires v in DirectVisits(s, tier)
    ensures DirectCandidate(s, tier, d) && v in DirectVisit(s, tier, d.pool, d.tokenIn, d.tokenOut)
  {
    hide FlatMap, DirectAmount, IsSimplePool, KindIsSimple;
    InFlatMap(s.pools, DirectPools(s, tier), v);
    var pool :| pool in s.pools && v in DirectPools(s, tier)(pool);
    SimpleKind(pool);
    InFlatMap(s.ins, DirectIns(s, tier, pool), v);
    var tokenIn :| tokenIn in s.ins && v in DirectIns(s, tier, pool)(tokenIn);
    InFlatMap(s.outs, DirectOuts(s, tier, pool, tokenIn), v);
    var tokenOut :| tokenOut in s.outs && v in DirectOuts(s, tier, pool, tokenIn)(tokenOut);
    d := Direct(pool, tokenIn, tokenOut);
  }

  lemma DirectVisited(s: Search, tier: Tier, d: Direct, v: Visit<Direct>)
    requires DirectCandidate(s, tier, d) && v in DirectVisit(s, tier, d.pool, d.tokenIn, d.tokenOut)
    ensures v in DirectVisits(s, tier)
  {
    hide FlatMap, DirectVisit, IsSimplePool, KindIsSimple;
    SimpleKind(d.pool);
    InFlatMap(s.outs, DirectOuts(s, tier, d.pool, d.tokenIn), v);
    assert v in DirectOuts(s, tier, d.pool, d.tokenIn)(d.tokenOut);
    InFlatMap(s.ins, DirectIns(s, tier, d.pool), v);
    assert v in DirectIns(s, tier, d.pool)(d.tokenIn);
    InFlatMap(s.pools, DirectPools(s, tier), v);
    assert v in DirectPools(s, tier)(d.pool);
  }

  lemma DirectThrownVisits(s: Search, tier: Tier)
    ensures Thrown in DirectVisits(s, tier) <==> DirectThrows(s, tier)
  {
    hide FlatMap, DirectVisits, DirectAmount, Gives, GivesThrows;
    if Thrown in DirectVisits(s, tier) {
      var d := DirectVisitOf(s, tier, Thrown);
      DirectAmountGives(s, tier, d);
    }
    if d :| DirectCandidate(s, tier, d) && GivesThrows(s, tier, d) {
      DirectAmountGives(s, tier, d);
      DirectVisited(s, tier, d, Thrown);
    }
  }

  lemma DirectHitIsRoute(s: Search, tier: Tier, v: Visit<Direct>)
    requires v in DirectVisits(s, tier) && v.Hit?
    ensures DirectRoute(s, tier, v.hit.item, v.hit.amount)
  {
    hide FlatMap, DirectVisits, DirectAmount, Gives;
    var d := DirectVisitOf(s, tier, v);
    DirectAmountGives(s, tier, d);
  }

  lemma DirectRouteIsHit(s: Search, tier: Tier, d: Direct, a: int)
    requires DirectRoute(s, tier, d, a)
    ensures Hit(Scored(d, a)) in DirectVisits(s, tier)
  {
    hide FlatMap, DirectVisits, DirectAmount, Gives;
    DirectAmountGives(s, tier, d);
    DirectVisited(s, tier, d, Hit(Scored(d, a)));
  }

  lemma DirectVisitsComplete(s: Search, tier: Tier)
    ensures Thrown in DirectVisits(s, tier) <==> DirectThrows(s, tier)
    ensures forall d, a :: Hit(Scored(d, a)) in DirectVisits(s, tier) <==> DirectRoute(s, tier, d, a)
    ensures forall v :: v in DirectVisits(s, tier) && v.Hit? ==> v.hit.amount > 0
  {
    DirectThrownVisits(s, tier);
    forall v | v in DirectVisits(s, tier) && v.Hit?
      ensures DirectRoute(s, tier, v.hit.item, v.hit.amount) && v.hit.amount > 0
    {
      DirectHitIsRoute(s, tier, v);
    }
    hide DirectVisits, DirectThrows, DirectRoute;
    forall d, a | DirectRoute(s, tier, d, a) ensures Hit(Scored(d, a)) in DirectVisits(s, tier) {
      DirectRouteIsHit(s, tier, d, a);
    }
  }

  lemma MidVisitOf(s: Search, v: Visit<TwoHop>) returns (first: RefPoolView, tokenIn: string, tokenMid: string)
    requires v in TwoHopVisits(s)
    ensures FirstHop(s, first, tokenIn, tokenMid) && v in MidVisits(s, first, tokenIn)(tokenMid)
  {
    InFlatMap(s.ins, InVisits(s), v);
    tokenIn :| tokenIn in s.ins && v in InVisits(s)(tokenIn);
    InFlatMap(PoolsWith(s.pools, tokenIn), FirstVisits(s, tokenIn), v);
    first :| first in PoolsWith(s.pools, tokenIn) && v in FirstVisits(s, tokenIn)(first);
    InPoolsWith(s.pools, tokenIn, first);
    InFlatMap(first.tokenIds, MidVisits(s, first, tokenIn), v);
    tokenMid :| tokenMid in first.tokenIds && v in MidVisits(s, first, tokenIn)(tokenMid);
  }

  lemma MidVisited(s: Search, first: RefPoolView, tokenIn: string, tokenMid: string, v: Visit<TwoHop>)
    requires FirstHop(s, first, tokenIn, tokenMid) && v in MidVisits(s, first, tokenIn)(tokenMid)
    ensures v in TwoHopVisits(s)
  {
    InFlatMap(first.tokenIds, MidVisits(s, first, tokenIn), v);
    assert v in FirstVisits(s, tokenIn)(first);
    InPoolsWith(s.pools, tokenIn, first);
    InFlatMap(PoolsWith(s.pools, tokenIn), FirstVisits(s, tokenIn), v);
    assert v in InVisits(s)(tokenIn);
    InFlatMap(s.ins, InVisits(s), v);
  }

  /** A visit at a middle token: the first call throws, or it is a visit of a last hop. */
  lemma LastVisitOf(s: Search, first: RefPoolView, tokenIn: string, tokenMid: string, v: Visit<TwoHop>)
    returns (h: TwoHop)
    requires FirstHop(s, first, tokenIn, tokenMid) && v in MidVisits(s, first, tokenIn)(tokenMid)
    requires s.rpc(first.id, tokenIn, tokenMid, s.amountIn).Some?
    ensures TwoHopCandidate(s, h) && h.first == first && h.tokenIn == tokenIn && h.tokenMid == tokenMid
    ensures v in LastVisit(s, first, tokenIn, tokenMid, h.amountMid, h.second)(h.tokenOut)
  {
    var amountMid := s.rpc(first.id, tokenIn, tokenMid, s.amountIn).value;
    var seconds := PoolsWith(s.pools, tokenMid);
    InFlatMap(seconds, SecondVisits(s, first, tokenIn, tokenMid, amountMid), v);
    var second :| second in seconds && v in SecondVisits(s, first, tokenIn, tokenMid, amountMid)(second);
    InPoolsWith(s.pools, tokenMid, second);
    var f := LastVisit(s, first, tokenIn, tokenMid, amountMid, second);
    InFlatMap(s.outs, f, v);
    var tokenOut :| tokenOut in s.outs && v in f(tokenOut);
    h := TwoHop(first, second, tokenIn, tokenMid, tokenOut, amountMid);
  }

  lemma LastVisited(s: Search, h: TwoHop, v: Visit<TwoHop>)
    requires TwoHopCandidate(s, h)
    requires v in LastVisit(s, h.first, h.tokenIn, h.tokenMid, h.amountMid, h.second)(h.tokenOut)
    ensures v in TwoHopVisits(s)
  {
    var f := LastVisit(s, h.first, h.tokenIn, h.tokenMid, h.amountMid, h.second);
    InFlatMap(s.outs, f, v);
    var g := SecondVisits(s, h.first, h.tokenIn, h.tokenMid, h.amountMid);
    assert v in g(h.second);
    InPoolsWith(s.pools, h.tokenMid, h.second);
    InFlatMap(PoolsWith(s.pools, h.tokenMid), g, v);
    MidVisited(s, h.first, h.tokenIn, h.tokenMid, v);
  }

  lemma FirstCallThrows(s: Search, first: RefPoolView, tokenIn: string, tokenMid: string)
    requires FirstHop(s, first, tokenIn, tokenMid)
    requires s.rpc(first.id, tokenIn, tokenMid, s.amountIn) == None
    ensures Thrown in TwoHopVisits(s)
  {
    InPoolsWith(s.pools, tokenMid, first);
    assert MidVisits(s, first, tokenIn)(tokenMid) == [Thrown];
    MidVisited(s, first, tokenIn, tokenMid, Thrown);
  }

  lemma TwoHopThrownVisits(s: Search)
    ensures Thrown in TwoHopVisits(s) <==> TwoHopThrows(s)
  {
    hide FlatMap, TwoHopVisits, PoolsWith;
    if Thrown in TwoHopVisits(s) {
      var first, tokenIn, tokenMid := MidVisitOf(s, Thrown);
      if s.rpc(first.id, tokenIn, tokenMid, s.amountIn).Some? {
        var h := LastVisitOf(s, first, tokenIn, tokenMid, Thrown);
        assert LastHopThrows(s, h);
      } else {
        assert FirstHopThrows(s, first, tokenIn, tokenMid);
      }
    }
    if first, tokenIn, tokenMid :| FirstHopThrows(s, first, tokenIn, tokenMid) {
      FirstCallThrows(s, first, tokenIn, tokenMid);
    }
    if h :| LastHopThrows(s, h) {
      LastVisited(s, h, Thrown);
    }
  }

  lemma HitIsRoute(s: Search, v: Visit<TwoHop>)
    requires v in TwoHopVisits(s) && v.Hit?
    ensures TwoHopRoute(s, v.hit.item, v.hit.amount)
  {
    hide FlatMap, TwoHopVisits, PoolsWith, TwoHopCandidate;
    var first, tokenIn, tokenMid := MidVisitOf(s, v);
    assert s.rpc(first.id, tokenIn, tokenMid, s.amountIn).Some?;
    var h := LastVisitOf(s, first, tokenIn, tokenMid, v);
    hide MidVisits;
  }

  lemma TwoHopVisitsComplete(s: Search)
    ensures Thrown in TwoHopVisits(s) <==> TwoHopThrows(s)
    ensures forall h, a :: Hit(Scored(h, a)) in TwoHopVisits(s) <==> TwoHopRoute(s, h, a)
    ensures forall v :: v in TwoHopVisits(s) && v.Hit? ==> v.hit.amount > 0
  {
    TwoHopThrownVisits(s);
    forall v | v in TwoHopVisits(s) && v.Hit?
      ensures TwoHopRoute(s, v.hit.item, v.hit.amount) && v.hit.amount > 0
    {
      HitIsRoute(s, v);
    }
    hide TwoHopVisits, TwoHopThrows;
    forall h, a | TwoHopRoute(s, h, a) ensures Hit(Scored(h, a)) in TwoHopVisits(s) {
      RouteIsHit(s, h, a);
    }
  }

  lemma RouteIsHit(s: Search, h: TwoHop, a: int)
    requires TwoHopRoute(s, h, a)
    ensures Hit(Scored(h, a)) in TwoHopVisits(s)
  {
    LastVisited(s, h, Hit(Scored(h, a)));
  }

  // ---- the main results ----

  ghost predicate Positive<T>(r: Option<Option<Scored<T>>>) {
    r.Some? && r.value.Some? ==> r.value.value.amount > 0
  }

  /** Settled hits of every tier are positive. */
  lemma SettledPositive(s: Search)
    ensures forall tier :: Positive(Settle(None, DirectVisits(s, tier)))
    ensures Positive(Settle(None, TwoHopVisits(s)))
  {
    forall tier: Tier ensures Positive(Settle(None, DirectVisits(s, tier))) {
      DirectVisitsComplete(s, tier);
      SettleIsFirstBest(DirectVisits(s, tier));
    }
    TwoHopVisitsComplete(s);
    SettleIsFirstBest(TwoHopVisits(s));
  }

  /** A settled best over visits that are exactly the routes is the best of the routes. */
  lemma BestOfRoutes<T>(visits: seq<Visit<T>>, b: Scored<T>)
    requires Settle(None, visits) == Some(Some(b))
    ensures Hit(b) in visits
    ensures forall x, a :: Hit(Scored(x, a)) in visits ==> a <= b.amount
  {
    SettleIsFirstBest(visits);
    var i: nat :| FirstBestAt(b, visits, i);
    forall x, a | Hit(Scored(x, a)) in visits ensures a <= b.amount {
      var j :| 0 <= j < |visits| && visits[j] == Hit(Scored(x, a));
    }
  }

  /** What a direct tier settles on, in brute-force terms. */
  lemma DirectTierBest(s: Search, tier: Tier)
    ensures match Settle(None, DirectVisits(s, tier))
      case None => DirectThrows(s, tier)
      case Some(None) => NoDirect(s, tier)
      case Some(Some(b)) =>
        && !DirectThrows(s, tier) && DirectRoute(s, tier, b.item, b.amount)
        && forall d, a :: DirectRoute(s, tier, d, a) ==> a <= b.amount
  {
    var visits := DirectVisits(s, tier);
    DirectVisitsComplete(s, tier);
    hide DirectVisits, DirectRoute, DirectThrows;
    SettleIsFirstBest(visits);
    match Settle(None, visits)
    case None =>
    case Some(None) =>
    case Some(Some(b)) =>
      assert b == Scored(b.item, b.amount);
      BestOfRoutes(visits, b);
  }

  lemma TwoHopTierBest(s: Search)
    ensures match Settle(None, TwoHopVisits(s))
      case None => TwoHopThrows(s)
      case Some(None) => !TwoHopThrows(s) && forall h, a :: !TwoHopRoute(s, h, a)
      case Some(Some(b)) =>
        && !TwoHopThrows(s) && TwoHopRoute(s, b.item, b.amount)
        && forall h, a :: TwoHopRoute(s, h, a) ==> a <= b.amount
  {
    var visits := TwoHopVisits(s);
    TwoHopVisitsComplete(s);
    hide TwoHopVisits, TwoHopRoute, TwoHopThrows;
    SettleIsFirstBest(visits);
    match Settle(None, visits)
    case None =>
    case Some(None) =>
    case Some(Some(b)) =>
      assert b == Scored(b.item, b.amount);
      BestOfRoutes(visits, b);
  }

  ghost predicate NoDirect(s: Search, tier: Tier) {
    !DirectThrows(s, tier) && forall d, a :: !DirectRoute(s, tier, d, a)
  }

  /** q quotes one direct route of the tier that no other beats. */
  ghost predicate QuotesBestDirect(s: Search, tier: Tier, q: RefSwapQuote) {
    && (forall d', a :: DirectRoute(s, tier, d', a) ==> a <= q.amountOut)
    && exists d ::
      && DirectRoute(s, tier, d, q.amountOut)
      && q.poolId == d.pool.id && q.tokenIn == d.tokenIn && q.tokenOut == d.tokenOut
      && q.actions == [Action(d.pool.id, d.tokenIn, d.tokenOut, s.amountIn)]
      && q.feeBps == SwapMath.ParseFeeBps(d.pool.totalFee)
  }

  /** q quotes a two-hop route that no other beats over all ordered pool pairs and middle
      tokens, and its second action spends exactly what its first one buys. */
  ghost predicate QuotesBestTwoHop(s: Search, q: RefSwapQuote) {
    && (exists h ::
          && TwoHopRoute(s, h, q.amountOut)
          && q.poolId == h.first.id && q.tokenIn == h.tokenIn && q.tokenOut == h.tokenOut
          && q.feeBps == SwapMath.ParseFeeBps(h.first.totalFee) + SwapMath.ParseFeeBps(h.second.totalFee)
          && q.actions == [Action(h.first.id, h.tokenIn, h.tokenMid, s.amountIn),
                           Action(h.second.id, h.tokenMid, h.tokenOut, h.amountMid)])
    && (forall h', a :: TwoHopRoute(s, h', a) ==> a <= q.amountOut)
    && |q.actions| == 2
    && q.actions[1].tokenIn == q.actions[0].tokenOut
    && s.rpc(q.actions[0].poolId, q.actions[0].tokenIn, q.actions[0].tokenOut, q.actions[0].amountIn)
       == Some(q.actions[1].amountIn)
  }

  /** The search against brute force: which tier answers, that its answer is the best of
      that tier, that later tiers are reached only when no earlier route gives a positive
      amount, and that it fails exactly when a call of a reached tier throws or nothing is found. */
  lemma SearchIsBruteForce(s: Search, bps: nat)
    ensures match Expected(s, bps)
      case Ok(q) =>
        && q.amountOut > 0 && q.amountIn == s.amountIn
        && q.minAmountOut == SwapMath.ApplySlippage(q.amountOut, bps)
        && (match q.source
            case BestDirectSimplePool => !DirectThrows(s, SimpleTier) && QuotesBestDirect(s, SimpleTier, q)
            case BestDirectPool =>
              NoDirect(s, SimpleTier) && !DirectThrows(s, DirectTier) && QuotesBestDirect(s, DirectTier, q)
            case BestTwoHopPoolRoute =>
              NoDirect(s, SimpleTier) && NoDirect(s, DirectTier) && !TwoHopThrows(s) && QuotesBestTwoHop(s, q))
      case Err(CallFailed) =>
        || DirectThrows(s, SimpleTier)
        || (NoDirect(s, SimpleTier) && DirectThrows(s, DirectTier))
        || (NoDirect(s, SimpleTier) && NoDirect(s, DirectTier) && TwoHopThrows(s))
      case Err(NoRoute) =>
        NoDirect(s, SimpleTier) && NoDirect(s, DirectTier) && !TwoHopThrows(s) && forall h, a :: !TwoHopRoute(s, h, a)
  {
    DirectTierBest(s, SimpleTier);
    DirectTierBest(s, DirectTier);
    TwoHopTierBest(s);
    SettledPositive(s);
    hide DirectRoute, DirectThrows, TwoHopRoute, TwoHopThrows, Settle, DirectVisits, TwoHopVisits;
    var r := Expected(s, bps);
    if r.Ok? && r.value.source.BestTwoHopPoolRoute? {
      assert QuotesBestTwoHop(s, r.value) by {
        ChainOf(s, Settle(None, TwoHopVisits(s)).value.value);
      }
    }
  }

  lemma ChainOf(s: Search, best: Scored<TwoHop>)
    requires TwoHopRoute(s, best.item, best.amount)
    ensures s.rpc(best.item.first.id, best.item.tokenIn, best.item.tokenMid, s.amountIn) == Some(best.item.amountMid)
  {
  }

  /** A quote of the second tier is the contract's own answer for its pool and tokens, each
      in its role, and the contract answers no more for any other candidate. */
  lemma DirectPoolQuote(s: Search, bps: nat)
    requires Expected(s, bps).Ok? && Expected(s, bps).value.source == BestDirectPool
    ensures var q := Expected(s, bps).value;
      && s.rpc(q.poolId, q.tokenIn, q.tokenOut, s.amountIn).Some?
      && s.rpc(q.poolId, q.tokenIn, q.tokenOut, s.amountIn).value == q.amountOut
      && forall pool, tokenIn, tokenOut | DirectCandidate(s, DirectTier, Direct(pool, tokenIn, tokenOut)) ::
           && s.rpc(pool.id, tokenIn, tokenOut, s.amountIn).Some?
           && s.rpc(pool.id, tokenIn, tokenOut, s.amountIn).value <= q.amountOut
  {
    SearchIsBruteForce(s, bps);
    hide Expected, DirectCandidate, NoDirect;
    var q := Expected(s, bps).value;
    assert QuotesBestDirect(s, DirectTier, q);
    forall pool, tokenIn, tokenOut | DirectCandidate(s, DirectTier, Direct(pool, tokenIn, tokenOut))
      ensures s.rpc(pool.id, tokenIn, tokenOut, s.amountIn).Some?
      ensures s.rpc(pool.id, tokenIn, tokenOut, s.amountIn).value <= q.amountOut
    {
      var d := Direct(pool, tokenIn, tokenOut);
      assert !GivesThrows(s, DirectTier, d);
      var answer := s.rpc(pool.id, tokenIn, tokenOut, s.amountIn).value;
      assert answer > 0 ==> DirectRoute(s, DirectTier, d, answer);
    }
  }

  /** A quote of the first tier is the most its pool can pay out for its tokens, each in its
      role, and no other simple pool could pay out more. */
  lemma SimplePoolQuote(s: Search, bps: nat)
    requires Expected(s, bps).Ok? && Expected(s, bps).value.source == BestDirectSimplePool
    ensures var q := Expected(s, bps).value;
      && (exists pool | DirectCandidate(s, SimpleTier, Direct(pool, q.tokenIn, q.tokenOut)) ::
            pool.id == q.poolId && PoolOffers(pool, q.tokenIn, q.tokenOut, s.amountIn, q.amountOut))
      && forall pool, tokenIn, tokenOut, x: nat, y: nat, out
           | DirectCandidate(s, SimpleTier, Direct(pool, tokenIn, tokenOut))
             && HasReserve(pool, tokenIn, x) && HasReserve(pool, tokenOut, y) && x > 0 && y > 0
             && KeepsProduct(x, y, SwapMath.AfterFee(s.amountIn, SwapMath.ParseFeeBps(pool.totalFee)), out) ::
           out <= q.amountOut
  {
    SearchIsBruteForce(s, bps);
    hide Expected, DirectCandidate, NoDirect, PoolOffers, HasReserve, KeepsProduct;
    var q := Expected(s, bps).value;
    assert QuotesBestDirect(s, SimpleTier, q);
    var d :| DirectRoute(s, SimpleTier, d, q.amountOut)
             && q.poolId == d.pool.id && q.tokenIn == d.tokenIn && q.tokenOut == d.tokenOut;
    assert d == Direct(d.pool, q.tokenIn, q.tokenOut);
    forall pool, tokenIn, tokenOut, x: nat, y: nat, out
      | DirectCandidate(s, SimpleTier, Direct(pool, tokenIn, tokenOut))
        && HasReserve(pool, tokenIn, x) && HasReserve(pool, tokenOut, y) && x > 0 && y > 0
        && KeepsProduct(x, y, SwapMath.AfterFee(s.amountIn, SwapMath.ParseFeeBps(pool.totalFee)), out)
      ensures out <= q.amountOut
    {
      CompetingPool(s, q, Direct(pool, tokenIn, tokenOut), x, y, out);
    }
  }

  lemma CompetingPool(s: Search, q: RefSwapQuote, d: Direct, x: nat, y: nat, out: int)
    requires QuotesBestDirect(s, SimpleTier, q) && q.amountOut > 0 && DirectCandidate(s, SimpleTier, d)
    requires HasReserve(d.pool, d.tokenIn, x) && HasReserve(d.pool, d.tokenOut, y) && x > 0 && y > 0
    requires KeepsProduct(x, y, SwapMath.AfterFee(s.amountIn, SwapMath.ParseFeeBps(d.pool.totalFee)), out)
    ensures out <= q.amountOut
  {
    hide DirectCandidate, PoolOffers, HasReserve, KeepsProduct, SwapMath.AfterFee, SwapMath.ParseFeeBps;
    EstimateIsLargest(d.pool, d.tokenIn, d.tokenOut, s.amountIn, x, y, out);
    var e := EstimateSimplePoolSwap(d.pool, d.tokenIn, d.tokenOut, s.amountIn).value;
    if e > 0 {
      hide EstimateSimplePoolSwap;
      EstimateIsOffer(d.pool, d.tokenIn, d.tokenOut, s.amountIn, e);
      assert DirectRoute(s, SimpleTier, d, e);
    }
  }
}
