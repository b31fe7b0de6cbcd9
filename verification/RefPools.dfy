/** Ref Finance pools as src/chains/near/ref.ts reads them, and the token index. */
module RefPools {
  import opened Outcomes
  import opened DecimalText
  import opened JsText
  import opened Numerals
  import SwapMath

  /** total_fee is finite: fetchRefPools replaces anything else by 0. */
  datatype RefPoolView = RefPoolView(id: int, tokenIds: seq<string>, amounts: seq<string>, totalFee: real,
                                     poolKind: Option<string>)

  function IsSimplePool(pool: RefPoolView): bool {
    pool.poolKind.None? || pool.poolKind.value == "" || pool.poolKind.value == "SIMPLE_POOL"
  }

  /** The first index of the token, or None. */
  function FindIndex(tokens: seq<string>, t: string): (r: Option<nat>)
    ensures r.None? <==> t !in tokens
    ensures r.Some? ==> r.value < |tokens| && tokens[r.value] == t && t !in tokens[..r.value]
  {
    if tokens == [] then None
    else if tokens[0] == t then Some(0)
    else
      var r := FindIndex(tokens[1..], t);
      if r.None? then None else Some(r.value + 1)
  }

  /** The token's reserve as digits, "unknown" when the pool lists no amount for it. */
  datatype Reserve = Unknown | Malformed | Known(amount: nat)

  function ReadPoolReserve(pool: RefPoolView, t: string): Reserve {
    var i := FindIndex(pool.tokenIds, t);
    if i.None? || i.value >= |pool.amounts| then Unknown
    else
      var parsed := ParseUnsigned(pool.amounts[i.value]);
      if parsed.Err? then Malformed else Known(parsed.value)
  }

  /** None when a reserve text does not parse (the source throws). */
  function EstimateSimplePoolSwap(pool: RefPoolView, tokenIn: string, tokenOut: string, amountIn: nat)
    : Option<int>
  {
    var x, y := ReadPoolReserve(pool, tokenIn), ReadPoolReserve(pool, tokenOut);
    if x.Unknown? || y.Unknown? then Some(0)
    else if x.Malformed? || y.Malformed? then None
    else Some(SwapMath.RefAmountOut(amountIn, x.amount, y.amount, SwapMath.ParseFeeBps(pool.totalFee)))
  }

  // ---- what a pool holds and offers, read off its two lists ----

  /** The token's amount text: the one at the first place the token is listed. */
  ghost predicate HasText(pool: RefPoolView, t: string, text: string) {
    exists i | 0 <= i < |pool.tokenIds| && i < |pool.amounts| ::
      pool.tokenIds[i] == t && t !in pool.tokenIds[..i] && pool.amounts[i] == text
  }

  ghost predicate HasReserve(pool: RefPoolView, t: string, amount: nat) {
    exists text :: HasText(pool, t, text) && IsDigits(Trim(text)) && Value(Trim(text), Dec) == amount
  }

  lemma TextIsUnique(pool: RefPoolView, t: string, a: string, b: string)
    requires HasText(pool, t, a) && HasText(pool, t, b)
    ensures a == b
  {
  }

  lemma ReserveText(pool: RefPoolView, t: string)
    ensures match ReadPoolReserve(pool, t)
      case Unknown => forall text :: !HasText(pool, t, text)
      case Malformed => exists text :: HasText(pool, t, text) && !IsDigits(Trim(text))
      case Known(v) => exists text :: HasText(pool, t, text) && IsDigits(Trim(text)) && Value(Trim(text), Dec) == v
  {
    var i := FindIndex(pool.tokenIds, t);
    hide FindIndex, Trim, Value, IsDigits;
    if i.Some? {
      if i.value < |pool.amounts| {
        assert HasText(pool, t, pool.amounts[i.value]);
      }
    }
  }

  /** A known reserve is the number at the first place of the token; it is unknown when there
      is no amount there, and malformed when the amount there is no number. */
  lemma ReserveIsRead(pool: RefPoolView, t: string)
    ensures forall v: nat :: ReadPoolReserve(pool, t) == Known(v) <==> HasReserve(pool, t, v)
    ensures ReadPoolReserve(pool, t).Unknown? <==> forall text :: !HasText(pool, t, text)
    ensures ReadPoolReserve(pool, t).Malformed? <==> exists text :: HasText(pool, t, text) && !IsDigits(Trim(text))
  {
    ReserveText(pool, t);
    hide ReadPoolReserve, HasText, Trim, Value, IsDigits;
    forall a, b | HasText(pool, t, a) && HasText(pool, t, b) ensures a == b {
      TextIsUnique(pool, t, a, b);
    }
  }

  /** Paying out `out` for an input of a after fee keeps the product of x and y. */
  predicate KeepsProduct(x: nat, y: nat, a: nat, out: int) {
    (x + a) * (y - out) >= x * y
  }

  /** The amount is the largest the pool can pay out, from the reserves of the two tokens,
      each in its role, for the input after the pool's fee. */
  ghost predicate PoolOffers(pool: RefPoolView, tokenIn: string, tokenOut: string, amountIn: nat, amount: int) {
    exists x: nat, y: nat | HasReserve(pool, tokenIn, x) && HasReserve(pool, tokenOut, y) ::
      && x > 0 && y > 0
      && forall out :: out <= amount
           <==> KeepsProduct(x, y, SwapMath.AfterFee(amountIn, SwapMath.ParseFeeBps(pool.totalFee)), out)
  }

  /** Both amounts are there, and one of them is no number. */
  ghost predicate PoolUnreadable(pool: RefPoolView, tokenIn: string, tokenOut: string) {
    && (exists text :: HasText(pool, tokenIn, text)) && (exists text :: HasText(pool, tokenOut, text))
    && (|| (exists text :: HasText(pool, tokenIn, text) && !IsDigits(Trim(text)))
        || (exists text :: HasText(pool, tokenOut, text) && !IsDigits(Trim(text))))
  }

  lemma EstimateThrows(pool: RefPoolView, tokenIn: string, tokenOut: string, amountIn: nat)
    ensures EstimateSimplePoolSwap(pool, tokenIn, tokenOut, amountIn).None? <==> PoolUnreadable(pool, tokenIn, tokenOut)
  {
    ReserveIsRead(pool, tokenIn);
    ReserveIsRead(pool, tokenOut);
    hide ReadPoolReserve, HasText, HasReserve, Trim, IsDigits, SwapMath.RefAmountOut, SwapMath.ParseFeeBps;
  }

  lemma KeepsUpTo(x: nat, y: nat, d: nat, bps: nat)
    requires x > 0 && y > 0 && bps <= SwapMath.FEE_DIVISOR
    ensures forall out :: out <= SwapMath.RefAmountOut(d, x, y, bps) <==> KeepsProduct(x, y, SwapMath.AfterFee(d, bps), out)
  {
    hide SwapMath.AfterFee, SwapMath.RefAmountOut;
    forall out
      ensures out <= SwapMath.RefAmountOut(d, x, y, bps) <==> KeepsProduct(x, y, SwapMath.AfterFee(d, bps), out)
    {
      SwapMath.RefQuoteIsLargest(x, y, d, bps, out);
    }
  }

  /** A positive estimate is exactly what the pool offers. */
  lemma EstimateIsOffer(pool: RefPoolView, tokenIn: string, tokenOut: string, amountIn: nat, amount: int)
    requires amount > 0
    ensures EstimateSimplePoolSwap(pool, tokenIn, tokenOut, amountIn) == Some(amount)
       <==> PoolOffers(pool, tokenIn, tokenOut, amountIn, amount)
  {
    ReserveIsRead(pool, tokenIn);
    ReserveIsRead(pool, tokenOut);
    var bps := SwapMath.ParseFeeBps(pool.totalFee);
    var x, y := ReadPoolReserve(pool, tokenIn), ReadPoolReserve(pool, tokenOut);
    hide ReadPoolReserve, HasReserve, HasText, Trim, IsDigits, SwapMath.ParseFeeBps, SwapMath.AfterFee, KeepsProduct;
    if x.Known? && y.Known? {
      if x.amount > 0 && y.amount > 0 {
        KeepsUpTo(x.amount, y.amount, amountIn, bps);
        hide SwapMath.RefAmountOut;
        var e := SwapMath.RefAmountOut(amountIn, x.amount, y.amount, bps);
        if PoolOffers(pool, tokenIn, tokenOut, amountIn, amount) {
          assert e <= amount <==> KeepsProduct(x.amount, y.amount, SwapMath.AfterFee(amountIn, bps), e);
          assert amount <= e <==> KeepsProduct(x.amount, y.amount, SwapMath.AfterFee(amountIn, bps), amount);
        }
      }
    }
  }

  /** With both reserves known, the estimate is the largest output that keeps the pool's
      product with the input after its fee; an empty reserve yields nothing. */
  lemma EstimateIsLargest(pool: RefPoolView, tokenIn: string, tokenOut: string, amountIn: nat, x: nat, y: nat, out: int)
    requires HasReserve(pool, tokenIn, x) && HasReserve(pool, tokenOut, y)
    ensures var estimate := EstimateSimplePoolSwap(pool, tokenIn, tokenOut, amountIn);
      && estimate.Some?
      && (x > 0 && y > 0 ==>
            (out <= estimate.value
             <==> KeepsProduct(x, y, SwapMath.AfterFee(amountIn, SwapMath.ParseFeeBps(pool.totalFee)), out)))
      && (x == 0 || y == 0 ==> estimate.value == 0)
  {
    ReserveIsRead(pool, tokenIn);
    ReserveIsRead(pool, tokenOut);
    hide ReadPoolReserve, HasReserve, HasText, Trim, IsDigits, SwapMath.AfterFee, SwapMath.ParseFeeBps, KeepsProduct;
    assert ReadPoolReserve(pool, tokenIn) == Known(x) && ReadPoolReserve(pool, tokenOut) == Known(y);
    if x > 0 && y > 0 {
      KeepsUpTo(x, y, amountIn, SwapMath.ParseFeeBps(pool.totalFee));
    }
  }

  // ---- the index by token ----

  function Occurrences(pool: RefPoolView, tokens: seq<string>, t: string): seq<RefPoolView> {
    if tokens == [] then []
    else Occurrences(pool, tokens[..|tokens| - 1], t) + if tokens[|tokens| - 1] == t then [pool] else []
  }

  /** The pools listing the token, in order, once per listing. */
  function PoolsWith(pools: seq<RefPoolView>, t: string): seq<RefPoolView> {
    if pools == [] then []
    else
      var last := pools[|pools| - 1];
      PoolsWith(pools[..|pools| - 1], t) + Occurrences(last, last.tokenIds, t)
  }

  function Lookup(index: map<string, seq<RefPoolView>>, t: string): seq<RefPoolView> {
    if t in index then index[t] else []
  }

  lemma {:induction false} InOccurrences(pool: RefPoolView, tokens: seq<string>, t: string, p: RefPoolView)
    ensures p in Occurrences(pool, tokens, t) <==> p == pool && t in tokens
  {
    if tokens != [] {
      InOccurrences(pool, tokens[..|tokens| - 1], t, p);
      assert tokens == tokens[..|tokens| - 1] + [tokens[|tokens| - 1]];
    }
  }

  /** A pool is found through the index exactly when it is a pool that lists the token. */
  lemma {:induction false} InPoolsWith(pools: seq<RefPoolView>, t: string, p: RefPoolView)
    ensures p in PoolsWith(pools, t) <==> p in pools && t in p.tokenIds
  {
    if pools != [] {
      var last := pools[|pools| - 1];
      InPoolsWith(pools[..|pools| - 1], t, p);
      InOccurrences(last, last.tokenIds, t, p);
      assert pools == pools[..|pools| - 1] + [last];
    }
  }

  /** The index holds `done`, plus `pool` for its first j listings. */
  ghost predicate IndexHolds(index: map<string, seq<RefPoolView>>, done: seq<RefPoolView>, pool: RefPoolView,
                             listed: seq<string>)
  {
    && (forall t :: Lookup(index, t) == PoolsWith(done, t) + Occurrences(pool, listed, t))
    && (forall t :: t in index ==> index[t] != [])
  }

  lemma OneMoreListing(pool: RefPoolView, listed: seq<string>, token: string, t: string)
    ensures Occurrences(pool, listed + [token], t) == Occurrences(pool, listed, t) + if token == t then [pool] else []
  {
    assert (listed + [token])[..|listed|] == listed;
  }

  lemma AddListing(index: map<string, seq<RefPoolView>>, done: seq<RefPoolView>, pool: RefPoolView,
                   listed: seq<string>, token: string)
    requires IndexHolds(index, done, pool, listed)
    ensures IndexHolds(index[token := Lookup(index, token) + [pool]], done, pool, listed + [token])
  {
    var next := index[token := Lookup(index, token) + [pool]];
    hide PoolsWith, Occurrences;
    forall t
      ensures Lookup(next, t) == PoolsWith(done, t) + Occurrences(pool, listed + [token], t)
    {
      OneMoreListing(pool, listed, token, t);
      assert Lookup(index, t) == PoolsWith(done, t) + Occurrences(pool, listed, t);
    }
  }

  lemma NextPool(index: map<string, seq<RefPoolView>>, done: seq<RefPoolView>, pool: RefPoolView)
    requires IndexHolds(index, done, pool, pool.tokenIds)
    ensures forall next :: IndexHolds(index, done + [pool], next, [])
  {
    assert (done + [pool])[..|done|] == done;
  }

  lemma EmptyIndex(next: RefPoolView)
    ensures IndexHolds(map[], [], next, [])
  {
  }

  lemma FullIndex(index: map<string, seq<RefPoolView>>, pools: seq<RefPoolView>, any: RefPoolView)
    requires IndexHolds(index, pools, any, [])
    ensures forall t :: Lookup(index, t) == PoolsWith(pools, t)
    ensures forall t :: t in index ==> index[t] != []
  {
    hide PoolsWith;
    forall t ensures Lookup(index, t) == PoolsWith(pools, t) {
      assert Occurrences(any, [], t) == [];
    }
  }

  method CollectPoolsByTokenId(pools: seq<RefPoolView>) returns (index: map<string, seq<RefPoolView>>)
    ensures forall t :: Lookup(index, t) == PoolsWith(pools, t)
    ensures forall t :: t in index ==> index[t] != []
  {
    hide IndexHolds, PoolsWith, Lookup;
    index := map[];
    forall next ensures IndexHolds(map[], [], next, []) { EmptyIndex(next); }
    assert pools[..0] == [];
    for i := 0 to |pools|
      invariant forall next :: IndexHolds(index, pools[..i], next, [])
    {
      var pool := pools[i];
      assert pool.tokenIds[..0] == [];
      for j := 0 to |pool.tokenIds|
        invariant IndexHolds(index, pools[..i], pool, pool.tokenIds[..j])
      {
        var tokenId := pool.tokenIds[j];
        AddListing(index, pools[..i], pool, pool.tokenIds[..j], tokenId);
        assert pool.tokenIds[..j + 1] == pool.tokenIds[..j] + [tokenId];
        index := index[tokenId := Lookup(index, tokenId) + [pool]];
      }
      assert pool.tokenIds[..|pool.tokenIds|] == pool.tokenIds;
      NextPool(index, pools[..i], pool);
      assert pools[..i + 1] == pools[..i] + [pool];
    }
    assert pools[..|pools|] == pools;
    FullIndex(index, pools, RefPoolView(0, [], [], 0.0, None));
  }
}
