/** Ranking of LI.FI quotes (src/chains/evm/tools/lifi-planning.ts): every order kind is
    asked once, the quotes are scored and sorted, and the first one is selected. Scores are
    integers here where the code computes with doubles. */
module LifiPlanning {
  import opened Numerals
  import opened Outcomes
  import opened Sorting

  datatype Order = Recommended | Cheapest | Fastest | Safest

  const ORDER_CANDIDATES := [Recommended, Cheapest, Fastest, Safest]

  /** What the scoring reads of a quote, its amounts parsed. */
  datatype Quote = Quote(fromAmount: int, toAmount: int, feeCosts: seq<int>, gasCosts: seq<int>, steps: nat,
                         executionDuration: int, slippage: real)

  datatype Metrics = Metrics(feeTotal: int, gasTotal: int, hops: int, durationSeconds: int, slippageBps: int,
                             riskPenaltyBps: int, effectiveCostBps: int, netOut: int)

  datatype Candidate = Candidate(order: Order, quote: Quote, metrics: Metrics, score: int)

  const MAX_SAFE_INTEGER := 9007199254740991

  function Sum(xs: seq<int>): int {
    if xs == [] then 0 else Sum(xs[..|xs| - 1]) + xs[|xs| - 1]
  }

  /** Division of bigints drops the fraction. */
  function TruncDiv(a: int, b: int): int
    requires b > 0
  {
    if a >= 0 then a / b else -((-a) / b)
  }

  /** `Math.round`. */
  function Round(x: real): int {
    (x + 0.5).Floor
  }

  /** A missing or zero slippage counts as the default of 3 percent. */
  function SlippageBps(slippage: real): int {
    Round((if slippage == 0.0 then 0.03 else slippage) * 10000.0)
  }

  function BaseCostBps(total: int, fromAmount: int): int {
    if fromAmount > 0 then TruncDiv(total * 10000, fromAmount) else MAX_SAFE_INTEGER
  }

  function RiskPenalty(hops: int, durationSeconds: int): int {
    (if hops > 1 then hops - 1 else 0) * 8 + (if durationSeconds > 900 then 25 else 0)
  }

  function BuildRouteMetrics(q: Quote): Metrics {
    var feeTotal, gasTotal := Sum(q.feeCosts), Sum(q.gasCosts);
    var hops := if q.steps > 1 then q.steps else 1;
    var slippageBps := SlippageBps(q.slippage);
    var risk := RiskPenalty(hops, q.executionDuration);
    Metrics(feeTotal, gasTotal, hops, q.executionDuration, slippageBps, risk,
            BaseCostBps(feeTotal + gasTotal, q.fromAmount) + slippageBps + risk, q.toAmount - feeTotal - gasTotal)
  }

  function BuildScore(m: Metrics): int {
    (if m.netOut > 0 then m.netOut else 0) - m.effectiveCostBps * 1000000 - m.durationSeconds * 10000 - m.hops * 50000
  }

  function ScoreLifiQuote(q: Quote, order: Order): Candidate {
    var metrics := BuildRouteMetrics(q);
    Candidate(order, q, metrics, BuildScore(metrics))
  }

  // ---- the score ----

  /** A list of costs adds up piece by piece. */
  lemma {:induction false} SumAdds(xs: seq<int>, ys: seq<int>, x: int)
    ensures Sum(xs + ys) == Sum(xs) + Sum(ys) && Sum([x]) == x && Sum([]) == 0
    decreases |ys|
  {
    assert [x][..0] == [];
    if ys == [] {
      assert xs + ys == xs;
    } else {
      assert (xs + ys)[..|xs + ys| - 1] == xs + ys[..|ys| - 1];
      SumAdds(xs, ys[..|ys| - 1], x);
    }
  }

  /** The metrics of a quote, field by field. */
  lemma MetricsExactly(q: Quote)
    ensures var m := BuildRouteMetrics(q);
      && m.feeTotal == Sum(q.feeCosts) && m.gasTotal == Sum(q.gasCosts)
      && m.netOut == q.toAmount - Sum(q.feeCosts) - Sum(q.gasCosts)
      && (q.steps == 0 ==> m.hops == 1) && (q.steps > 0 ==> m.hops == q.steps) && m.durationSeconds == q.executionDuration
      && m.riskPenaltyBps == 8 * m.hops - 8 + (if q.executionDuration > 900 then 25 else 0)
      && m.effectiveCostBps
         == BaseCostBps(Sum(q.feeCosts) + Sum(q.gasCosts), q.fromAmount) + m.slippageBps + m.riskPenaltyBps
      && (q.slippage == 0.0 ==> m.slippageBps == 300)
      && (q.slippage != 0.0 ==> m.slippageBps as real - 0.5 <= q.slippage * 10000.0 < m.slippageBps as real + 0.5)
  {
    hide Sum, BaseCostBps;
    assert (0.03 * 10000.0 + 0.5).Floor == 300;
  }

  lemma TruncDivMonotone(a: int, b: int, d: int)
    requires a <= b && d > 0
    ensures TruncDiv(a, d) <= TruncDiv(b, d)
  {
    if a >= 0 {
      DivMonotone(a, b, d);
    } else if b < 0 {
      DivMonotone(-b, -a, d);
    } else {
      DivMonotone(0, b, d);
      DivMonotone(0, -a, d);
      ZeroDiv(d);
    }
  }

  lemma ZeroDiv(d: int)
    requires d > 0
    ensures 0 / d == 0
  {
  }

  lemma DivBounds(n: int, d: int)
    requires d > 0
    ensures (n / d) * d <= n < (n / d) * d + d
  {
  }

  lemma DivMonotone(a: int, b: int, d: int)
    requires a <= b && d > 0
    ensures a / d <= b / d
  {
    DivBounds(a, d);
    DivBounds(b, d);
    QuotientsOrdered(a, b, d, a / d, b / d);
  }

  lemma QuotientsOrdered(a: int, b: int, d: int, x: int, y: int)
    requires a <= b && d > 0 && x * d <= a && b < y * d + d
    ensures x <= y
  {
    if x > y {
      MulMono(y + 1, x, d);
      Distribute(y, 1, 1, d);
    }
  }

  /** Quote a is nowhere worse than b, a zero slippage being read as 3 percent. */
  predicate NoWorse(a: Quote, b: Quote) {
    && a.fromAmount == b.fromAmount && a.toAmount >= b.toAmount
    && Sum(a.feeCosts) + Sum(a.gasCosts) <= Sum(b.feeCosts) + Sum(b.gasCosts)
    && a.steps <= b.steps && a.executionDuration <= b.executionDuration
    && SlippageBps(a.slippage) <= SlippageBps(b.slippage)
  }

  /** A quote nowhere worse than another never scores less. */
  lemma NoWorseScoresNoLess(a: Quote, b: Quote)
    requires NoWorse(a, b)
    ensures BuildScore(BuildRouteMetrics(a)) >= BuildScore(BuildRouteMetrics(b))
  {
    hide Sum, SlippageBps, TruncDiv;
    if a.fromAmount > 0 {
      TruncDivMonotone((Sum(a.feeCosts) + Sum(a.gasCosts)) * 10000, (Sum(b.feeCosts) + Sum(b.gasCosts)) * 10000,
                       a.fromAmount);
    }
  }

  lemma RoundMonotone(x: real, y: real)
    requires x <= y
    ensures Round(x) <= Round(y)
  {
  }

  /** Lowering only the slippage never lowers the score, except to exactly zero from one
      that rounds to less than 300 basis points. */
  lemma LowerSlippageScoresNoLess(q: Quote, less: real, more: real)
    requires 0.0 <= less <= more
    ensures BuildScore(BuildRouteMetrics(q.(slippage := less))) >= BuildScore(BuildRouteMetrics(q.(slippage := more)))
       <==> !(less == 0.0 && more != 0.0 && SlippageBps(more) < 300)
  {
    assert SlippageBps(0.0) == 300 by { assert (0.03 * 10000.0 + 0.5).Floor == 300; }
    if less != 0.0 {
      RoundMonotone(less * 10000.0, more * 10000.0);
    }
    hide Sum, BaseCostBps, RiskPenalty, Round;
  }

  /** The exception is met: without slippage a quote scores below the same with 1 percent. */
  lemma ZeroSlippageScoresLess(q: Quote)
    ensures BuildScore(BuildRouteMetrics(q.(slippage := 0.0))) < BuildScore(BuildRouteMetrics(q.(slippage := 0.01)))
  {
    assert SlippageBps(0.01) == 100 by { assert (0.01 * 10000.0 + 0.5).Floor == 100; }
    hide SlippageBps;
    LowerSlippageScoresNoLess(q, 0.0, 0.01);
  }

  /** The cost is the share of the input that fees and gas take, in whole basis points. */
  lemma CostIsFloor(total: nat, fromAmount: int)
    requires fromAmount > 0
    ensures var cost := BaseCostBps(total, fromAmount);
      cost * fromAmount <= total * 10000 < (cost + 1) * fromAmount
  {
    var n := total * 10000;
    var cost := n / fromAmount;
    assert n == fromAmount * cost + n % fromAmount;
  }

  /** What the score charges: a further hop, a further second, the second that makes a
      route slow, and a unit of output. */
  lemma ScorePrices(q: Quote)
    ensures var score := BuildScore(BuildRouteMetrics(q));
      && (q.steps >= 1 ==> BuildScore(BuildRouteMetrics(q.(steps := q.steps + 1))) == score - 8050000)
      && BuildScore(BuildRouteMetrics(q.(executionDuration := q.executionDuration + 1)))
         == score - 10000 - (if q.executionDuration == 900 then 25000000 else 0)
      && BuildScore(BuildRouteMetrics(q.(toAmount := q.toAmount + 1)))
         == score + (if q.toAmount - Sum(q.feeCosts) - Sum(q.gasCosts) >= 0 then 1 else 0)
  {
    hide Sum, SlippageBps, BaseCostBps;
  }

  /** A quote that takes no input counts as costing the largest safe integer. */
  lemma ScoreWithoutInput(q: Quote)
    requires q.fromAmount <= 0 && q.steps <= 1 && q.executionDuration == 0
    requires q.toAmount == Sum(q.feeCosts) + Sum(q.gasCosts)
    ensures BuildScore(BuildRouteMetrics(q)) == -(9007199254740991 + SlippageBps(q.slippage)) * 1000000 - 50000
  {
    hide Sum, SlippageBps, TruncDiv;
  }

  // ---- the comparator ----

  /** Alphabetical place of the order's name, as localeCompare sees it. */
  function Rank(order: Order): int {
    match order
    case Cheapest => 0
    case Fastest => 1
    case Recommended => 2
    case Safest => 3
  }

  /** The comparator of the sort: negative when a comes first. */
  function Compare(a: Candidate, b: Candidate): int {
    if b.score != a.score then b.score - a.score
    else if a.metrics.effectiveCostBps != b.metrics.effectiveCostBps then
      a.metrics.effectiveCostBps - b.metrics.effectiveCostBps
    else if a.metrics.hops != b.metrics.hops then a.metrics.hops - b.metrics.hops
    else if a.metrics.durationSeconds != b.metrics.durationSeconds then
      a.metrics.durationSeconds - b.metrics.durationSeconds
    else Rank(a.order) - Rank(b.order)
  }

  predicate Before(a: Candidate, b: Candidate) {
    Compare(a, b) < 0
  }

  /** The comparator is a strict order that separates any two candidates of different
      order kinds. */
  lemma ComparatorIsTotal()
    ensures StrictWeakOrder(Before)
    ensures forall a: Candidate, b: Candidate | a.order != b.order :: Before(a, b) || Before(b, a)
    ensures forall a: Candidate, b: Candidate :: Compare(a, b) == -Compare(b, a)
  {
  }

  function Name(order: Order): string {
    match order
    case Recommended => "RECOMMENDED"
    case Cheapest => "CHEAPEST"
    case Fastest => "FASTEST"
    case Safest => "SAFEST"
  }

  /** a does no worse than b: a higher score; or as much and less cost; or that, too, and fewer
      hops; or those, too, and less time; or all alike and no later in the alphabet, which the
      first letters of the four names decide. */
  predicate NoLaterThan(a: Candidate, b: Candidate) {
    || a.score > b.score
    || (a.score == b.score
        && (|| a.metrics.effectiveCostBps < b.metrics.effectiveCostBps
            || (a.metrics.effectiveCostBps == b.metrics.effectiveCostBps
                && (|| a.metrics.hops < b.metrics.hops
                    || (a.metrics.hops == b.metrics.hops
                        && (|| a.metrics.durationSeconds < b.metrics.durationSeconds
                            || (a.metrics.durationSeconds == b.metrics.durationSeconds
                                && Name(a.order)[0] <= Name(b.order)[0])))))))
  }

  lemma ComparatorIsLexicographic(a: Candidate, b: Candidate)
    ensures !Before(b, a) <==> NoLaterThan(a, b)
  {
  }

  // ---- planning ----

  function Sequence(preferred: Option<Order>): seq<Order> {
    match preferred
    case None => ORDER_CANDIDATES
    case Some(p) => [p] + Others(ORDER_CANDIDATES, p)
  }

  function Others(orders: seq<Order>, p: Order): seq<Order> {
    if orders == [] then []
    else if orders[0] == p then Others(orders[1..], p)
    else [orders[0]] + Others(orders[1..], p)
  }

  /** The scored quotes of the orders that were answered, in the order asked. */
  function Candidates<E>(orders: seq<Order>, answer: Order -> Result<Quote, E>): seq<Candidate> {
    if orders == [] then []
    else
      var init, last := Candidates(orders[..|orders| - 1], answer), orders[|orders| - 1];
      match answer(last)
      case Ok(q) => init + [ScoreLifiQuote(q, last)]
      case Err(_) => init
  }

  function Failures<E>(orders: seq<Order>, answer: Order -> Result<Quote, E>): seq<(Order, E)> {
    if orders == [] then []
    else
      var init, last := Failures(orders[..|orders| - 1], answer), orders[|orders| - 1];
      match answer(last)
      case Ok(_) => init
      case Err(e) => init + [(last, e)]
  }

  datatype Plan<E> = Plan(selected: Candidate, candidates: seq<Candidate>, failedOrders: seq<(Order, E)>,
                          fallbackUsed: bool, quoteAttempts: nat, quoteSuccess: nat, quoteFailure: nat)

  lemma {:induction false} CandidateOf<E>(orders: seq<Order>, answer: Order -> Result<Quote, E>, c: Candidate)
    ensures c in Candidates(orders, answer)
       <==> c.order in orders && answer(c.order).Ok? && c == ScoreLifiQuote(answer(c.order).value, c.order)
  {
    hide ScoreLifiQuote;
    if orders != [] {
      var init, last := orders[..|orders| - 1], orders[|orders| - 1];
      CandidateOf(init, answer, c);
      assert orders == init + [last];
      OrderOf(answer, last);
    }
  }

  lemma OrderOf<E>(answer: Order -> Result<Quote, E>, order: Order)
    ensures answer(order).Ok? ==> ScoreLifiQuote(answer(order).value, order).order == order
  {
  }

  /** How often a candidate is collected depends only on how often its order is asked. */
  lemma {:induction false} CandidateCount<E>(orders: seq<Order>, answer: Order -> Result<Quote, E>, c: Candidate)
    ensures multiset(Candidates(orders, answer))[c]
         == if answer(c.order).Ok? && c == ScoreLifiQuote(answer(c.order).value, c.order) then multiset(orders)[c.order]
            else 0
  {
    hide ScoreLifiQuote;
    if orders != [] {
      var init, last := orders[..|orders| - 1], orders[|orders| - 1];
      CandidateCount(init, answer, c);
      assert orders == init + [last];
      OrderOf(answer, last);
    }
  }

  lemma CandidatesPermute<E>(s: seq<Order>, t: seq<Order>, answer: Order -> Result<Quote, E>)
    requires multiset(s) == multiset(t)
    ensures multiset(Candidates(s, answer)) == multiset(Candidates(t, answer))
  {
    hide Candidates, ScoreLifiQuote;
    forall c ensures multiset(Candidates(s, answer))[c] == multiset(Candidates(t, answer))[c] {
      CandidateCount(s, answer, c);
      CandidateCount(t, answer, c);
    }
  }

  lemma {:induction false} OthersCount(orders: seq<Order>, p: Order)
    ensures multiset(Others(orders, p)) == multiset(orders)[p := 0]
  {
    if orders != [] {
      assert orders == [orders[0]] + orders[1..];
      OthersCount(orders[1..], p);
    }
  }

  /** Each order kind is asked exactly once, the preferred one first. */
  lemma SequenceAsksAllOnce(preferred: Option<Order>)
    ensures multiset(Sequence(preferred)) == multiset(ORDER_CANDIDATES)
    ensures preferred.Some? ==> Sequence(preferred)[0] == preferred.value
    ensures |Sequence(preferred)| == 4
  {
    assert multiset(ORDER_CANDIDATES) == multiset{Recommended, Cheapest, Fastest, Safest};
    if preferred.Some? {
      OthersCount(ORDER_CANDIDATES, preferred.value);
      assert multiset(Sequence(preferred)) == multiset(ORDER_CANDIDATES);
    }
    assert |multiset(Sequence(preferred))| == |multiset(ORDER_CANDIDATES)|;
  }

  /** Candidates that differ are of different order kinds, so the comparator separates them. */
  lemma CandidatesSeparated<E>(orders: seq<Order>, answer: Order -> Result<Quote, E>, a: Candidate, b: Candidate)
    requires a in Candidates(orders, answer) && b in Candidates(orders, answer) && a != b
    ensures Before(a, b) || Before(b, a)
  {
    CandidateOf(orders, answer, a);
    CandidateOf(orders, answer, b);
    ComparatorIsTotal();
    hide Before, Candidates, ScoreLifiQuote;
  }

  /** For fixed answers the sorted list, and with it the selected route, is the same for
      every preferred order. */
  lemma RankingIgnoresPreference<E>(answer: Order -> Result<Quote, E>, p: Option<Order>, q: Option<Order>)
    ensures Sort(Before, Candidates(Sequence(p), answer)) == Sort(Before, Candidates(Sequence(q), answer))
  {
    hide *;
    SequenceAsksAllOnce(p);
    SequenceAsksAllOnce(q);
    CandidatesPermute(Sequence(p), Sequence(q), answer);
    ComparatorIsTotal();
    var s, t := Candidates(Sequence(p), answer), Candidates(Sequence(q), answer);
    SortSorts(Before, s);
    SortSorts(Before, t);
    forall a, b | a in Sort(Before, s) && b in Sort(Before, s) && a != b ensures Before(a, b) || Before(b, a) {
      assert a in multiset(s) && b in multiset(s);
      CandidatesSeparated(Sequence(p), answer, a, b);
    }
    SortedUnique(Before, Sort(Before, s), Sort(Before, t));
  }

  lemma {:induction false} AttemptsCounted<E>(orders: seq<Order>, answer: Order -> Result<Quote, E>)
    ensures |Candidates(orders, answer)| + |Failures(orders, answer)| == |orders|
  {
    if orders != [] {
      AttemptsCounted(orders[..|orders| - 1], answer);
    }
  }

  /** The first of a sorted list is beaten by none and has the highest score. */
  lemma FirstIsBest(s: seq<Candidate>, c: Candidate)
    requires SortedBy(Before, s) && c in s
    ensures !Before(c, s[0]) && c.score <= s[0].score
  {
    var i :| 0 <= i < |s| && s[i] == c;
    if i == 0 {
      assert !Before(c, c);
    } else {
      assert !Before(s[i], s[0]);
    }
  }

  lemma {:induction false} FirstFailure<E>(orders: seq<Order>, answer: Order -> Result<Quote, E>)
    requires orders != [] && Candidates(orders, answer) == []
    ensures answer(orders[0]).Err? && |Failures(orders, answer)| > 0
    ensures Failures(orders, answer)[0] == (orders[0], answer(orders[0]).error)
  {
    if |orders| > 1 {
      FirstFailure(orders[..|orders| - 1], answer);
    }
  }

  /** The planner fails only when every order failed, and then with the error of the order
      asked first; otherwise the plan holds the sorted quotes of all orders answered, the
      best of them selected, and accounts for all four attempts. */
  method PlanLifiQuoteRoutes<E>(answer: Order -> Result<Quote, E>, preferredOrder: Option<Order>)
    returns (r: Result<Plan<E>, E>)
    ensures r.Err? <==> forall o :: answer(o).Err?
    ensures r.Err? ==> answer(Sequence(preferredOrder)[0]) == Result.Err(r.error)
    ensures r.Ok? ==> var plan := r.value;
      && plan.candidates == Sort(Before, Candidates(Sequence(preferredOrder), answer))
      && plan.failedOrders == Failures(Sequence(preferredOrder), answer)
      && plan.candidates != [] && plan.selected == plan.candidates[0]
      && (forall o | answer(o).Ok? ::
            var c := ScoreLifiQuote(answer(o).value, o);
            c in plan.candidates && NoLaterThan(plan.selected, c) && c.score <= plan.selected.score)
      && plan.quoteAttempts == plan.quoteSuccess + plan.quoteFailure == 4
      && plan.quoteSuccess == |plan.candidates| && plan.quoteFailure == |plan.failedOrders|
      && (plan.fallbackUsed <==> exists o :: answer(o).Err?)
  {
    var failedOrders: seq<(Order, E)> := [];
    var candidates: seq<Candidate> := [];
    var sequence := Sequence(preferredOrder);
    hide *;
    NothingCollected(answer);
    assert sequence[..0] == [];
    for i := 0 to |sequence|
      invariant candidates == Candidates(sequence[..i], answer)
      invariant failedOrders == Failures(sequence[..i], answer)
    {
      CollectNext(sequence, i, answer);
      match answer(sequence[i])
      case Ok(quote) => candidates := candidates + [ScoreLifiQuote(quote, sequence[i])];
      case Err(error) => failedOrders := failedOrders + [(sequence[i], error)];
    }
    assert sequence[..|sequence|] == sequence;
    SequenceAsksAllOnce(preferredOrder);
    SequenceHasAll(preferredOrder);
    AttemptsCounted(sequence, answer);
    SuccessAndFailure(sequence, answer);
    if |candidates| == 0 {
      FirstFailure(sequence, answer);
      return Err(failedOrders[0].1);
    }
    ComparatorIsTotal();
    SortSorts(Before, candidates);
    ghost var collected := candidates;
    candidates := Sort(Before, candidates);
    var selected := candidates[0];
    forall o | answer(o).Ok?
      ensures var c := ScoreLifiQuote(answer(o).value, o);
        c in candidates && NoLaterThan(selected, c) && c.score <= selected.score
    {
      var c := ScoreLifiQuote(answer(o).value, o);
      OrderOf(answer, o);
      CandidateOf(sequence, answer, c);
      assert c in multiset(collected);
      FirstIsBest(candidates, c);
      ComparatorIsLexicographic(selected, c);
    }
    return Ok(Plan(selected, candidates, failedOrders, |failedOrders| > 0, |sequence|, |candidates|, |failedOrders|));
  }

  lemma NothingCollected<E>(answer: Order -> Result<Quote, E>)
    ensures Candidates([], answer) == [] && Failures([], answer) == []
  {
  }

  lemma CollectNext<E>(sequence: seq<Order>, i: nat, answer: Order -> Result<Quote, E>)
    requires i < |sequence|
    ensures Candidates(sequence[..i + 1], answer)
         == Candidates(sequence[..i], answer)
            + if answer(sequence[i]).Ok? then [ScoreLifiQuote(answer(sequence[i]).value, sequence[i])] else []
    ensures Failures(sequence[..i + 1], answer)
         == Failures(sequence[..i], answer)
            + if answer(sequence[i]).Err? then [(sequence[i], answer(sequence[i]).error)] else []
  {
    assert sequence[..i + 1][..i] == sequence[..i];
  }

  lemma SequenceHasAll(preferred: Option<Order>)
    ensures forall o :: o in Sequence(preferred)
  {
    SequenceAsksAllOnce(preferred);
    hide Sequence;
    assert multiset(ORDER_CANDIDATES) == multiset{Recommended, Cheapest, Fastest, Safest};
    forall o: Order ensures o in Sequence(preferred) {
      match o {
        case Recommended => assert o in multiset(Sequence(preferred));
        case Cheapest => assert o in multiset(Sequence(preferred));
        case Fastest => assert o in multiset(Sequence(preferred));
        case Safest => assert o in multiset(Sequence(preferred));
      }
    }
  }

  /** Nothing is collected exactly when all fail, no failure is noted exactly when none does. */
  lemma {:induction false} SuccessAndFailure<E>(orders: seq<Order>, answer: Order -> Result<Quote, E>)
    ensures Candidates(orders, answer) == [] <==> forall o | o in orders :: answer(o).Err?
    ensures Failures(orders, answer) == [] <==> forall o | o in orders :: answer(o).Ok?
  {
    hide *;
    if orders == [] {
      NothingCollected(answer);
    } else {
      var init, last := orders[..|orders| - 1], orders[|orders| - 1];
      SuccessAndFailure(init, answer);
      CollectNext(orders, |init|, answer);
      assert orders[..|init| + 1] == orders;
      assert orders == init + [last];
      assert forall o :: o in orders <==> o in init || o == last;
    }
  }
}
