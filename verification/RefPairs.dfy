/** Choosing a pool for a token pair: resolveBestPairInPool and the ranking of
    findRefPoolForPair when no pool is named (src/chains/near/ref.ts). */
module RefPairs {
  import opened Outcomes
  import opened RefPools
  import opened Scan
  import opened Sorting

  datatype Pair = Pair(tokenA: string, tokenB: string)
  datatype Candidate = Candidate(pool: RefPoolView, tokenA: string, tokenB: string, score: int)
  datatype PairError = ReserveThrows | NoPool | BadMaxCandidates
  datatype Selection = Selection(best: Candidate, listed: seq<Candidate>)

  // ---- the best pair inside one pool ----

  /** estimatePairLiquidityScore: both reserves are read before either is tested. */
  function PairVisit(pool: RefPoolView, a: string, b: string): seq<Visit<Pair>> {
    if a == b || b !in pool.tokenIds then []
    else
      var x, y := ReadPoolReserve(pool, a), ReadPoolReserve(pool, b);
      if x.Malformed? || y.Malformed? then [Thrown]
      else if x.Unknown? || y.Unknown? then []
      else [Hit(Scored(Pair(a, b), x.amount * y.amount))]
  }

  function PairsWithB(pool: RefPoolView, a: string): string -> seq<Visit<Pair>> {
    b => PairVisit(pool, a, b)
  }

  function PairsWithA(pool: RefPoolView, bs: seq<string>): string -> seq<Visit<Pair>> {
    a => if a !in pool.tokenIds then [] else FlatMap(bs, PairsWithB(pool, a))
  }

  function PairVisits(pool: RefPoolView, as_: seq<string>, bs: seq<string>): seq<Visit<Pair>> {
    FlatMap(as_, PairsWithA(pool, bs))
  }

  method ScanBs(pool: RefPoolView, a: string, bs: seq<string>, start: Option<Scored<Pair>>)
    returns (r: Option<Option<Scored<Pair>>>)
    ensures r == Settle(start, FlatMap(bs, PairsWithB(pool, a)))
  {
    var best := start;
    ghost var f := PairsWithB(pool, a);
    assert bs[0..] == bs;
    for k := 0 to |bs|
      invariant Settle(start, FlatMap(bs, f)) == Settle(best, FlatMap(bs[k..], f))
    {
      var b := bs[k];
      LoopTurn(best, bs, k, f);
      if a == b { continue; }
      if b !in pool.tokenIds { continue; }
      var reserveA := ReadPoolReserve(pool, a);
      var reserveB := ReadPoolReserve(pool, b);
      if reserveA.Malformed? || reserveB.Malformed? {
        return None;
      }
      if reserveA.Unknown? || reserveB.Unknown? { continue; }
      var score := reserveA.amount * reserveB.amount;
      if best.None? || score > best.value.amount {
        best := Some(Scored(Pair(a, b), score));
      }
    }
    return Some(best);
  }

  method ResolveBestPairInPool(pool: RefPoolView, as_: seq<string>, bs: seq<string>)
    returns (r: Option<Option<Scored<Pair>>>)
    ensures r == Settle(None, PairVisits(pool, as_, bs))
  {
    var best: Option<Scored<Pair>> := None;
    assert as_[0..] == as_;
    for k := 0 to |as_|
      invariant Settle(None, PairVisits(pool, as_, bs)) == Settle(best, FlatMap(as_[k..], PairsWithA(pool, bs)))
    {
      LoopTurn(best, as_, k, PairsWithA(pool, bs));
      if as_[k] !in pool.tokenIds { continue; }
      var next := ScanBs(pool, as_[k], bs, best);
      if next.None? {
        return None;
      }
      best := next.value;
    }
    return Some(best);
  }

  // ---- ranking the pools ----

  /** The comparator: more liquidity first, then the smaller pool id. */
  function Outranks(l: Candidate, r: Candidate): bool {
    if l.score == r.score then l.pool.id < r.pool.id else l.score > r.score
  }

  lemma OutranksIsWeakOrder()
    ensures StrictWeakOrder(Outranks)
  {
  }

  /** The pool with its best pair, if it has one; None when a reserve read throws. */
  function PoolCandidate(pool: RefPoolView, as_: seq<string>, bs: seq<string>): Option<Option<Candidate>> {
    match Settle(None, PairVisits(pool, as_, bs))
    case None => None
    case Some(None) => Some(None)
    case Some(Some(p)) => Some(Some(Candidate(pool, p.item.tokenA, p.item.tokenB, p.amount)))
  }

  /** One candidate for every pool with a pair, in order; None when a reserve read throws. */
  function CandidatesOf(pools: seq<RefPoolView>, as_: seq<string>, bs: seq<string>): Option<seq<Candidate>> {
    if pools == [] then Some([])
    else
      var init := CandidatesOf(pools[..|pools| - 1], as_, bs);
      var last := PoolCandidate(pools[|pools| - 1], as_, bs);
      if init.None? || last.None? then None
      else if last.value.None? then init
      else Some(init.value + [last.value.value])
  }

  lemma {:induction false} ThrowsStay(pools: seq<RefPoolView>, i: nat, as_: seq<string>, bs: seq<string>)
    requires i <= |pools| && CandidatesOf(pools[..i], as_, bs) == None
    ensures CandidatesOf(pools, as_, bs) == None
    decreases |pools|
  {
    if i == |pools| {
      assert pools[..i] == pools;
    } else {
      assert pools[..|pools| - 1][..i] == pools[..i];
      ThrowsStay(pools[..|pools| - 1], i, as_, bs);
    }
  }

  method CollectCandidates(pools: seq<RefPoolView>, as_: seq<string>, bs: seq<string>)
    returns (r: Option<seq<Candidate>>)
    ensures r == CandidatesOf(pools, as_, bs)
  {
    var candidates: seq<Candidate> := [];
    for i := 0 to |pools|
      invariant CandidatesOf(pools[..i], as_, bs) == Some(candidates)
    {
      var pair := ResolveBestPairInPool(pools[i], as_, bs);
      assert pools[..i + 1][..i] == pools[..i];
      if pair.None? {
        ThrowsStay(pools, i + 1, as_, bs);
        return None;
      }
      if pair.value.None? { continue; }
      var p := pair.value.value;
      candidates := candidates + [Candidate(pools[i], p.item.tokenA, p.item.tokenB, p.amount)];
    }
    assert pools[..|pools|] == pools;
    return Some(candidates);
  }

  /** parseMaxCandidates; None when not given, Some(None) when not finite. */
  function ParseMaxCandidates(maxCandidates: Option<Option<real>>): Option<nat> {
    match maxCandidates
    case None => Some(3)
    case Some(None) => None
    case Some(Some(v)) => if v <= 0.0 then None else Some(if v.Floor > 10 then 10 else v.Floor)
  }

  function Min(x: nat, y: nat): nat {
    if x <= y then x else y
  }

  method FindRefPoolForPair(pools: seq<RefPoolView>, as_: seq<string>, bs: seq<string>,
                            maxCandidates: Option<Option<real>>)
    returns (r: Result<Selection, PairError>)
    ensures r == Selected(pools, as_, bs, maxCandidates)
  {
    var k := ParseMaxCandidates(maxCandidates);
    if k.None? {
      return Err(BadMaxCandidates);
    }
    var candidates := CollectCandidates(pools, as_, bs);
    if candidates.None? {
      return Err(ReserveThrows);
    }
    if |candidates.value| == 0 {
      return Err(NoPool);
    }
    OutranksIsWeakOrder();
    SortSorts(Outranks, candidates.value);
    var sorted := Sort(Outranks, candidates.value);
    return Ok(Selection(sorted[0], sorted[..Min(k.value, |sorted|)]));
  }

  function Selected(pools: seq<RefPoolView>, as_: seq<string>, bs: seq<string>, maxCandidates: Option<Option<real>>)
    : Result<Selection, PairError>
  {
    var k, candidates := ParseMaxCandidates(maxCandidates), CandidatesOf(pools, as_, bs);
    if k.None? then Err(BadMaxCandidates)
    else if candidates.None? then Err(ReserveThrows)
    else if candidates.value == [] then Err(NoPool)
    else
      OutranksIsWeakOrder(); SortSorts(Outranks, candidates.value);
      var sorted := Sort(Outranks, candidates.value);
      Ok(Selection(sorted[0], sorted[..Min(k.value, |sorted|)]))
  }

  // ---- brute force ----

  /** A pool that supports the pair, by two of the given tokens and their reserves. */
  predicate Supports(pool: RefPoolView, as_: seq<string>, bs: seq<string>, a: string, b: string) {
    && a in as_ && b in bs && a != b && a in pool.tokenIds && b in pool.tokenIds
    && ReadPoolReserve(pool, a).Known? && ReadPoolReserve(pool, b).Known?
  }

  function PairScore(pool: RefPoolView, a: string, b: string): int
    requires ReadPoolReserve(pool, a).Known? && ReadPoolReserve(pool, b).Known?
  {
    ReadPoolReserve(pool, a).amount * ReadPoolReserve(pool, b).amount
  }

  lemma PairVisitOf(pool: RefPoolView, as_: seq<string>, bs: seq<string>, v: Visit<Pair>) returns (a: string, b: string)
    requires v in PairVisits(pool, as_, bs)
    ensures a in as_ && b in bs && a in pool.tokenIds && v in PairVisit(pool, a, b)
  {
    InFlatMap(as_, PairsWithA(pool, bs), v);
    a :| a in as_ && v in PairsWithA(pool, bs)(a);
    InFlatMap(bs, PairsWithB(pool, a), v);
    b :| b in bs && v in PairsWithB(pool, a)(b);
  }

  lemma PairIsVisited(pool: RefPoolView, as_: seq<string>, bs: seq<string>, a: string, b: string, v: Visit<Pair>)
    requires a in as_ && b in bs && a in pool.tokenIds && v in PairVisit(pool, a, b)
    ensures v in PairVisits(pool, as_, bs)
  {
    InFlatMap(bs, PairsWithB(pool, a), v);
    assert v in PairsWithB(pool, a)(b);
    InFlatMap(as_, PairsWithA(pool, bs), v);
    assert v in PairsWithA(pool, bs)(a);
  }

  lemma PairVisited(pool: RefPoolView, as_: seq<string>, bs: seq<string>, p: Pair, score: int)
    ensures Hit(Scored(p, score)) in PairVisits(pool, as_, bs)
       <==> Supports(pool, as_, bs, p.tokenA, p.tokenB) && PairScore(pool, p.tokenA, p.tokenB) == score
  {
    hide PairVisits, FlatMap;
    var v: Visit<Pair> := Hit(Scored(p, score));
    if v in PairVisits(pool, as_, bs) {
      var a, b := PairVisitOf(pool, as_, bs, v);
    }
    if Supports(pool, as_, bs, p.tokenA, p.tokenB) && PairScore(pool, p.tokenA, p.tokenB) == score {
      PairIsVisited(pool, as_, bs, p.tokenA, p.tokenB, v);
    }
  }

  /** The nested scan of one pool finds its best supported pair, or that there is none. */
  lemma BestPairInPool(pool: RefPoolView, as_: seq<string>, bs: seq<string>)
    ensures match Settle(None, PairVisits(pool, as_, bs))
      case None => true
      case Some(None) => forall a, b :: !Supports(pool, as_, bs, a, b)
      case Some(Some(p)) =>
        && Supports(pool, as_, bs, p.item.tokenA, p.item.tokenB)
        && PairScore(pool, p.item.tokenA, p.item.tokenB) == p.amount
        && forall a, b :: Supports(pool, as_, bs, a, b) ==> PairScore(pool, a, b) <= p.amount
  {
    var visits := PairVisits(pool, as_, bs);
    SettleIsFirstBest(visits);
    hide PairVisits, PairScore;
    match Settle(None, visits)
    case None =>
    case Some(None) =>
      forall a, b ensures !Supports(pool, as_, bs, a, b) {
        if Supports(pool, as_, bs, a, b) {
          PairVisited(pool, as_, bs, Pair(a, b), PairScore(pool, a, b));
        }
      }
    case Some(Some(p)) =>
      var i: nat :| FirstBestAt(p, visits, i);
      assert p == Scored(Pair(p.item.tokenA, p.item.tokenB), p.amount);
      PairVisited(pool, as_, bs, p.item, p.amount);
      forall a, b | Supports(pool, as_, bs, a, b) ensures PairScore(pool, a, b) <= p.amount {
        PairVisited(pool, as_, bs, Pair(a, b), PairScore(pool, a, b));
        var j :| 0 <= j < |visits| && visits[j] == Hit(Scored(Pair(a, b), PairScore(pool, a, b)));
      }
  }

  /** c is the best pair of a fetched pool. */
  ghost predicate IsCandidate(pools: seq<RefPoolView>, as_: seq<string>, bs: seq<string>, c: Candidate) {
    && c.pool in pools && Supports(c.pool, as_, bs, c.tokenA, c.tokenB)
    && PairScore(c.pool, c.tokenA, c.tokenB) == c.score
    && forall a, b :: Supports(c.pool, as_, bs, a, b) ==> PairScore(c.pool, a, b) <= c.score
  }

  /** cs holds the best pairs of exactly the given pools that have one, and no read throws. */
  ghost predicate CandidatesAre(cs: seq<Candidate>, pools: seq<RefPoolView>, as_: seq<string>, bs: seq<string>) {
    && (forall c :: c in cs ==> c.pool in pools && PoolCandidate(c.pool, as_, bs) == Some(Some(c)))
    && (forall p :: p in pools ==> PoolCandidate(p, as_, bs).Some?)
    && (forall p :: p in pools && PoolCandidate(p, as_, bs).value.Some? ==> PoolCandidate(p, as_, bs).value.value in cs)
  }

  lemma {:induction false} CandidatesExact(pools: seq<RefPoolView>, as_: seq<string>, bs: seq<string>)
    requires CandidatesOf(pools, as_, bs).Some?
    ensures CandidatesAre(CandidatesOf(pools, as_, bs).value, pools, as_, bs)
  {
    hide *;
    if pools == [] {
      NoCandidates(as_, bs);
    } else {
      var init, last := pools[..|pools| - 1], pools[|pools| - 1];
      LastCandidate(pools, as_, bs);
      CandidatesExact(init, as_, bs);
      OneMorePool(CandidatesOf(init, as_, bs).value, init, last, as_, bs);
      assert pools == init + [last];
    }
  }

  lemma NoCandidates(as_: seq<string>, bs: seq<string>)
    ensures CandidatesOf([], as_, bs) == Some([]) && CandidatesAre([], [], as_, bs)
  {
  }

  lemma LastCandidate(pools: seq<RefPoolView>, as_: seq<string>, bs: seq<string>)
    requires pools != [] && CandidatesOf(pools, as_, bs).Some?
    ensures var init, last := CandidatesOf(pools[..|pools| - 1], as_, bs), PoolCandidate(pools[|pools| - 1], as_, bs);
      && init.Some? && last.Some?
      && CandidatesOf(pools, as_, bs).value
         == if last.value.None? then init.value else init.value + [last.value.value]
  {
    hide PoolCandidate;
  }

  lemma OneMorePool(cs: seq<Candidate>, pools: seq<RefPoolView>, pool: RefPoolView, as_: seq<string>, bs: seq<string>)
    requires CandidatesAre(cs, pools, as_, bs) && PoolCandidate(pool, as_, bs).Some?
    ensures var c := PoolCandidate(pool, as_, bs).value;
      CandidatesAre(if c.None? then cs else cs + [c.value], pools + [pool], as_, bs)
  {
    CandidateKeepsPool(pool, as_, bs);
    hide PoolCandidate;
  }

  lemma CandidateKeepsPool(pool: RefPoolView, as_: seq<string>, bs: seq<string>)
    ensures var c := PoolCandidate(pool, as_, bs); c.Some? && c.value.Some? ==> c.value.value.pool == pool
  {
  }

  lemma PoolCandidateIsBest(pools: seq<RefPoolView>, pool: RefPoolView, as_: seq<string>, bs: seq<string>)
    requires pool in pools
    ensures match PoolCandidate(pool, as_, bs)
      case None => true
      case Some(None) => forall a, b :: !Supports(pool, as_, bs, a, b)
      case Some(Some(c)) => c.pool == pool && IsCandidate(pools, as_, bs, c)
  {
    BestPairInPool(pool, as_, bs);
    hide Supports, PairScore, PairVisits, Settle;
  }

  lemma SortedIsCandidates(pools: seq<RefPoolView>, as_: seq<string>, bs: seq<string>) returns (sorted: seq<Candidate>)
    requires CandidatesOf(pools, as_, bs).Some?
    ensures sorted == Sort(Outranks, CandidatesOf(pools, as_, bs).value)
    ensures SortedBy(Outranks, sorted) && multiset(sorted) == multiset(CandidatesOf(pools, as_, bs).value)
    ensures |sorted| == |CandidatesOf(pools, as_, bs).value|
    ensures forall c :: c in sorted ==> IsCandidate(pools, as_, bs, c)
    ensures forall p, a, b :: p in pools && Supports(p, as_, bs, a, b) ==>
              exists c :: c in sorted && c.pool == p && PairScore(p, a, b) <= c.score
  {
    var cs := CandidatesOf(pools, as_, bs).value;
    sorted := Sort(Outranks, cs);
    OutranksIsWeakOrder();
    SortSorts(Outranks, cs);
    CandidatesExact(pools, as_, bs);
    hide Sort, CandidatesOf, PoolCandidate, Outranks;
    forall c | c in sorted ensures c in cs && IsCandidate(pools, as_, bs, c) {
      assert c in multiset(sorted);
      PoolCandidateIsBest(pools, c.pool, as_, bs);
    }
    forall p, a, b | p in pools && Supports(p, as_, bs, a, b)
      ensures exists c :: c in sorted && c.pool == p && PairScore(p, a, b) <= c.score
    {
      PoolCandidateIsBest(pools, p, as_, bs);
      var c := PoolCandidate(p, as_, bs).value.value;
      assert c in multiset(cs);
      assert c in sorted;
    }
  }

  /** The selection is a true top k: the listing is the first k of all candidate pools
      sorted by liquidity and id, every listed pool carries its best pair, and no
      supported pair of any pool outranks the chosen one. */
  lemma SelectionIsTopK(pools: seq<RefPoolView>, as_: seq<string>, bs: seq<string>, maxCandidates: Option<Option<real>>)
    requires Selected(pools, as_, bs, maxCandidates).Ok?
    ensures var sel := Selected(pools, as_, bs, maxCandidates).value;
      && IsCandidate(pools, as_, bs, sel.best)
      && (forall c :: c in sel.listed ==> IsCandidate(pools, as_, bs, c))
      && (forall p, a, b :: p in pools && Supports(p, as_, bs, a, b) ==>
            !Outranks(Candidate(p, a, b, PairScore(p, a, b)), sel.best))
      && exists rest :: TopK(sel, rest, CandidatesOf(pools, as_, bs).value, ParseMaxCandidates(maxCandidates).value)
  {
    hide *;
    SelectedShape(pools, as_, bs, maxCandidates);
    var sorted := SortedIsCandidates(pools, as_, bs);
    var sel, k := Selected(pools, as_, bs, maxCandidates).value, ParseMaxCandidates(maxCandidates).value;
    PrefixIsTopK(sorted, CandidatesOf(pools, as_, bs).value, sel, k);
    FirstIsUnbeaten(sorted, pools, as_, bs);
  }

  lemma SelectedShape(pools: seq<RefPoolView>, as_: seq<string>, bs: seq<string>, maxCandidates: Option<Option<real>>)
    requires Selected(pools, as_, bs, maxCandidates).Ok?
    ensures CandidatesOf(pools, as_, bs).Some? && ParseMaxCandidates(maxCandidates).Some?
    ensures var sorted := Sort(Outranks, CandidatesOf(pools, as_, bs).value);
      && sorted != [] && Min(ParseMaxCandidates(maxCandidates).value, |sorted|) <= |sorted|
      && Selected(pools, as_, bs, maxCandidates)
         == Ok(Selection(sorted[0], sorted[..Min(ParseMaxCandidates(maxCandidates).value, |sorted|)]))
  {
    OutranksIsWeakOrder();
    SortSorts(Outranks, CandidatesOf(pools, as_, bs).value);
    hide Sort, CandidatesOf;
  }

  lemma PrefixIsTopK(sorted: seq<Candidate>, all: seq<Candidate>, sel: Selection, k: nat)
    requires sorted != [] && SortedBy(Outranks, sorted) && multiset(sorted) == multiset(all)
    requires sel == Selection(sorted[0], sorted[..Min(k, |sorted|)])
    ensures exists rest :: TopK(sel, rest, all, k)
    ensures sel.best in sorted && forall c :: c in sel.listed ==> c in sorted
  {
    assert sel.listed + sorted[Min(k, |sorted|)..] == sorted;
    assert TopK(sel, sorted[Min(k, |sorted|)..], all, k);
  }

  lemma FirstIsUnbeaten(sorted: seq<Candidate>, pools: seq<RefPoolView>, as_: seq<string>, bs: seq<string>)
    requires sorted != [] && SortedBy(Outranks, sorted)
    requires forall p, a, b :: p in pools && Supports(p, as_, bs, a, b) ==>
               exists c :: c in sorted && c.pool == p && PairScore(p, a, b) <= c.score
    ensures forall p, a, b :: p in pools && Supports(p, as_, bs, a, b) ==>
              !Outranks(Candidate(p, a, b, PairScore(p, a, b)), sorted[0])
  {
    hide PairScore;
    forall p, a, b | p in pools && Supports(p, as_, bs, a, b)
      ensures !Outranks(Candidate(p, a, b, PairScore(p, a, b)), sorted[0])
    {
      var c :| c in sorted && c.pool == p && PairScore(p, a, b) <= c.score;
      var i :| 0 <= i < |sorted| && sorted[i] == c;
      assert i > 0 ==> !Outranks(c, sorted[0]);
    }
  }

  /** listed + rest is all candidates in rank order, listed its first k, best its first. */
  ghost predicate TopK(sel: Selection, rest: seq<Candidate>, all: seq<Candidate>, k: nat) {
    && multiset(sel.listed + rest) == multiset(all)
    && SortedBy(Outranks, sel.listed + rest)
    && |sel.listed| <= k && (|sel.listed| == k || rest == [])
    && sel.listed + rest != [] && sel.best == (sel.listed + rest)[0]
  }

  /** "No pool found" is reported exactly when no fetched pool supports the pair. */
  lemma NoPoolExactly(pools: seq<RefPoolView>, as_: seq<string>, bs: seq<string>, maxCandidates: Option<Option<real>>)
    requires ParseMaxCandidates(maxCandidates).Some? && CandidatesOf(pools, as_, bs).Some?
    ensures Selected(pools, as_, bs, maxCandidates) == Err(NoPool)
       <==> forall p, a, b :: p in pools ==> !Supports(p, as_, bs, a, b)
  {
    var sorted := SortedIsCandidates(pools, as_, bs);
    if sorted != [] {
      assert IsCandidate(pools, as_, bs, sorted[0]);
    }
    hide Sort, CandidatesOf, Supports;
  }

  /** The listing starts with the chosen pool exactly when at least one candidate was
      asked for: a limit strictly between 0 and 1 passes the check and lists nothing. */
  lemma ChosenIsListed(pools: seq<RefPoolView>, as_: seq<string>, bs: seq<string>, maxCandidates: Option<Option<real>>)
    requires Selected(pools, as_, bs, maxCandidates).Ok?
    ensures var sel := Selected(pools, as_, bs, maxCandidates).value;
      && (sel.listed != [] && sel.listed[0] == sel.best
          <==> maxCandidates == None || maxCandidates.value.value >= 1.0)
      && (sel.listed == [] <==> maxCandidates != None && maxCandidates.value.value < 1.0)
  {
    OutranksIsWeakOrder();
    SortSorts(Outranks, CandidatesOf(pools, as_, bs).value);
    hide Sort, CandidatesOf;
  }

  /** A supported pair and its worth, read off the pool's lists. */
  lemma SupportsMeans(pool: RefPoolView, as_: seq<string>, bs: seq<string>, a: string, b: string, score: int)
    ensures Supports(pool, as_, bs, a, b) && PairScore(pool, a, b) == score
       <==> && a in as_ && b in bs && a != b
            && exists x: nat, y: nat | HasReserve(pool, a, x) && HasReserve(pool, b, y) :: score == x * y
  {
    ReserveIsRead(pool, a);
    ReserveIsRead(pool, b);
    ReserveIsListed(pool, a);
    ReserveIsListed(pool, b);
    hide ReadPoolReserve, HasReserve, HasText;
  }

  lemma ReserveIsListed(pool: RefPoolView, t: string)
    ensures (exists x: nat :: HasReserve(pool, t, x)) ==> t in pool.tokenIds
  {
  }

  /** More liquidity, or as much and no larger a pool id. */
  predicate RanksBefore(scoreL: int, idL: int, scoreR: int, idR: int) {
    scoreL > scoreR || (scoreL == scoreR && idL <= idR)
  }

  /** How many candidates are asked for: three, or the whole number given, at most ten. */
  predicate AsksFor(maxCandidates: Option<Option<real>>, k: nat) {
    match maxCandidates
    case None => k == 3
    case Some(None) => false
    case Some(Some(v)) => v > 0.0 && if v >= 10.0 then k == 10 else k as real <= v < k as real + 1.0
  }

  /** The selection from the raw limit, by liquidity and then by id: it is refused for a limit
      that is not positive, lists as many as asked for and there are, in rank order, ranks every
      listed pool before every one left out, and chooses one that ranks before every supported
      pair. */
  lemma SelectionRanks(pools: seq<RefPoolView>, as_: seq<string>, bs: seq<string>, maxCandidates: Option<Option<real>>)
    ensures Selected(pools, as_, bs, maxCandidates) == Err(BadMaxCandidates) <==> forall k: nat :: !AsksFor(maxCandidates, k)
    ensures Selected(pools, as_, bs, maxCandidates).Ok? ==>
      var sel, all := Selected(pools, as_, bs, maxCandidates).value, CandidatesOf(pools, as_, bs);
      && all.Some?
      && (forall k: nat | AsksFor(maxCandidates, k) :: |sel.listed| == Min(k, |all.value|))
      && (forall i, j | 0 <= i < j < |sel.listed| ::
            RanksBefore(sel.listed[i].score, sel.listed[i].pool.id, sel.listed[j].score, sel.listed[j].pool.id))
      && (exists rest ::
            && multiset(sel.listed + rest) == multiset(all.value)
            && forall l, r | l in sel.listed && r in rest :: RanksBefore(l.score, l.pool.id, r.score, r.pool.id))
      && (forall p, a, b | p in pools && Supports(p, as_, bs, a, b) ::
            RanksBefore(sel.best.score, sel.best.pool.id, PairScore(p, a, b), p.id))
  {
    LimitIs(maxCandidates);
    SelectedNeedsLimit(pools, as_, bs, maxCandidates);
    if Selected(pools, as_, bs, maxCandidates).Ok? {
      hide *;
      var sel := Selected(pools, as_, bs, maxCandidates).value;
      SelectedShape(pools, as_, bs, maxCandidates);
      SelectionIsTopK(pools, as_, bs, maxCandidates);
      var all, k := CandidatesOf(pools, as_, bs).value, ParseMaxCandidates(maxCandidates).value;
      var rest :| TopK(sel, rest, all, k);
      TopKRanks(sel, rest, all, k);
      forall p, a, b | p in pools && Supports(p, as_, bs, a, b)
        ensures RanksBefore(sel.best.score, sel.best.pool.id, PairScore(p, a, b), p.id)
      {
        RanksIs(Candidate(p, a, b, PairScore(p, a, b)), sel.best);
      }
    }
  }

  lemma LimitIs(maxCandidates: Option<Option<real>>)
    ensures forall k: nat :: AsksFor(maxCandidates, k) <==> ParseMaxCandidates(maxCandidates) == Some(k)
  {
  }

  lemma SelectedNeedsLimit(pools: seq<RefPoolView>, as_: seq<string>, bs: seq<string>, maxCandidates: Option<Option<real>>)
    ensures Selected(pools, as_, bs, maxCandidates) == Err(BadMaxCandidates) <==> ParseMaxCandidates(maxCandidates).None?
  {
    hide CandidatesOf, Sort, ParseMaxCandidates;
  }

  lemma RanksIs(l: Candidate, r: Candidate)
    ensures !Outranks(l, r) <==> RanksBefore(r.score, r.pool.id, l.score, l.pool.id)
  {
  }

  lemma TopKRanks(sel: Selection, rest: seq<Candidate>, all: seq<Candidate>, k: nat)
    requires TopK(sel, rest, all, k)
    ensures multiset(sel.listed + rest) == multiset(all) && |sel.listed| == Min(k, |all|)
    ensures forall i, j | 0 <= i < j < |sel.listed| ::
      RanksBefore(sel.listed[i].score, sel.listed[i].pool.id, sel.listed[j].score, sel.listed[j].pool.id)
    ensures forall l, r | l in sel.listed && r in rest :: RanksBefore(l.score, l.pool.id, r.score, r.pool.id)
  {
    hide Outranks, RanksBefore;
    var sorted := sel.listed + rest;
    assert |sorted| == |all| by { assert |multiset(sorted)| == |multiset(all)|; }
    forall i, j | 0 <= i < j < |sel.listed|
      ensures RanksBefore(sel.listed[i].score, sel.listed[i].pool.id, sel.listed[j].score, sel.listed[j].pool.id)
    {
      assert sorted[i] == sel.listed[i] && sorted[j] == sel.listed[j];
      RanksIs(sorted[j], sorted[i]);
    }
    forall l, r | l in sel.listed && r in rest ensures RanksBefore(l.score, l.pool.id, r.score, r.pool.id) {
      var i :| 0 <= i < |sel.listed| && sel.listed[i] == l;
      var j :| 0 <= j < |rest| && rest[j] == r;
      assert sorted[i] == l && sorted[|sel.listed| + j] == r;
      RanksIs(r, l);
    }
  }
}
