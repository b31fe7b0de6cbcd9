/** The token symbol index of src/chains/sui/cetus-v2.ts: pool ids are joined by position
    with the objects the node answers, their coin types get symbols, and the index lists the
    coin types under each normalised symbol. The node's answers and the parsing of a Move
    type are inputs. */
module SymbolIndex {
  import opened Outcomes
  import opened JsText

  datatype PairTypes = PairTypes(coinTypeA: string, coinTypeB: string)

  datatype PoolPair = PoolPair(poolId: string, coinTypeA: string, coinTypeB: string, symbolA: string, symbolB: string)

  datatype Entry = Entry(symbol: string, coinType: string)

  type Index = map<string, seq<Entry>>

  // ---- resolving the pairs ----

  /** The last part of `text.split("::")`, the part under way having begun at start. */
  function LastSegment(text: string, start: nat, i: nat): string
    requires start <= i <= |text|
    decreases |text| - i
  {
    if i + 2 > |text| then text[start..]
    else if text[i] == ':' && text[i + 1] == ':' then LastSegment(text, i + 2, i + 2)
    else LastSegment(text, start, i + 1)
  }

  function FallbackSymbol(coinType: string): string {
    var last := Trim(LastSegment(coinType, 0, 0));
    if last != "" then last else coinType
  }

  lemma {:induction false} LastSegmentOfName(prefix: string, name: string, start: nat, i: nat)
    requires start <= i <= |prefix| && ':' !in name
    requires i < |prefix| ==> prefix[|prefix| - 1] != ':'
    ensures LastSegment(prefix + "::" + name, start, i) == name
    decreases |prefix| - i
  {
    var text := prefix + "::" + name;
    if i == |prefix| {
      assert text[i] == ':' && text[i + 1] == ':';
      NoMoreSegments(text, i + 2, i + 2);
      assert text[i + 2..] == name;
    } else if text[i] == ':' && text[i + 1] == ':' {
      assert i + 1 < |prefix| - 1;
      LastSegmentOfName(prefix, name, i + 2, i + 2);
    } else {
      LastSegmentOfName(prefix, name, start, i + 1);
    }
  }

  lemma {:induction false} NoMoreSegments(text: string, start: nat, i: nat)
    requires start <= i <= |text| && forall j | i <= j < |text| :: text[j] != ':'
    ensures LastSegment(text, start, i) == text[start..]
    decreases |text| - i
  {
    if i + 2 <= |text| {
      NoMoreSegments(text, start, i + 1);
    }
  }

  /** Without metadata the symbol of a coin type `package::module::NAME` is its NAME, trimmed;
      a blank NAME, like a text without `::`, gives the whole. */
  lemma FallbackIsName(prefix: string, name: string)
    requires ':' !in name
    requires prefix != "" ==> prefix[|prefix| - 1] != ':'
    ensures FallbackSymbol(prefix + "::" + name) == if Trim(name) != "" then Trim(name) else prefix + "::" + name
    ensures FallbackSymbol(name) == if Trim(name) != "" then Trim(name) else name
  {
    hide Trim, LastSegment;
    LastSegmentOfName(prefix, name, 0, 0);
    NoMoreSegments(name, 0, 0);
    assert name[0..] == name;
  }

  /** The symbol a coin type ends up with; no metadata covers a failed request. */
  function SymbolOf(metadata: string -> Option<string>, coinType: string): string {
    match metadata(coinType)
    case Some(symbol) => if symbol != "" then Trim(symbol) else FallbackSymbol(coinType)
    case None => FallbackSymbol(coinType)
  }

  /** The type the node gives for the pool at a position, if it gives one that parses. */
  function TypeAt(objects: seq<Option<string>>, parse: string -> Option<PairTypes>, i: nat): Option<PairTypes> {
    if i < |objects| && objects[i].Some? && objects[i].value != "" then parse(objects[i].value) else None
  }

  /** The pool ids whose type is known, each with it. */
  function TypesOf(ids: seq<string>, objects: seq<Option<string>>, parse: string -> Option<PairTypes>)
    : seq<(string, PairTypes)>
  {
    if ids == [] then []
    else
      var n := |ids| - 1;
      var types := TypesOf(ids[..n], objects, parse);
      match TypeAt(objects, parse, n)
      case Some(t) => types + [(ids[n], t)]
      case None => types
  }

  function WithSymbols(metadata: string -> Option<string>, t: (string, PairTypes)): PoolPair {
    PoolPair(t.0, t.1.coinTypeA, t.1.coinTypeB, SymbolOf(metadata, t.1.coinTypeA), SymbolOf(metadata, t.1.coinTypeB))
  }

  function Pairs(types: seq<(string, PairTypes)>, metadata: string -> Option<string>): seq<PoolPair> {
    seq(|types|, i requires 0 <= i < |types| => WithSymbols(metadata, types[i]))
  }

  function CoinsOf(types: seq<(string, PairTypes)>): set<string> {
    (set t | t in types :: t.1.coinTypeA) + (set t | t in types :: t.1.coinTypeB)
  }

  lemma CoinsOfMore(types: seq<(string, PairTypes)>, t: (string, PairTypes))
    ensures CoinsOf(types + [t]) == CoinsOf(types) + {t.1.coinTypeA, t.1.coinTypeB}
  {
    var more := types + [t];
    assert forall u :: u in more <==> u in types || u == t;
    assert t in more;
  }

  lemma CoinsOfHas(types: seq<(string, PairTypes)>, i: nat)
    requires i < |types|
    ensures types[i].1.coinTypeA in CoinsOf(types) && types[i].1.coinTypeB in CoinsOf(types)
  {
    assert types[i] in types;
  }

  /** The types map in its insertion order and the set of coin types in it. */
  method CollectTypes(ids: seq<string>, objects: seq<Option<string>>, parse: string -> Option<PairTypes>)
    returns (types: seq<(string, PairTypes)>, coinTypes: set<string>)
    ensures types == TypesOf(ids, objects, parse) && coinTypes == CoinsOf(types)
  {
    types, coinTypes := [], {};
    for index := 0 to |ids|
      invariant types == TypesOf(ids[..index], objects, parse)
      invariant coinTypes == CoinsOf(types)
    {
      assert ids[..index + 1][..index] == ids[..index];
      var parsed := TypeAt(objects, parse, index);
      if parsed.None? {
        continue;
      }
      CoinsOfMore(types, (ids[index], parsed.value));
      types := types + [(ids[index], parsed.value)];
      coinTypes := coinTypes + {parsed.value.coinTypeA, parsed.value.coinTypeB};
    }
    assert ids[..|ids|] == ids;
  }

  /** First every fallback, then the metadata over it, in whatever order it arrives. */
  method CollectSymbols(coinTypes: set<string>, metadata: string -> Option<string>)
    returns (symbolByCoinType: map<string, string>)
    ensures symbolByCoinType.Keys == coinTypes
    ensures forall c | c in coinTypes :: symbolByCoinType[c] == SymbolOf(metadata, c)
  {
    hide FallbackSymbol, Trim;
    symbolByCoinType := map c | c in coinTypes :: FallbackSymbol(c);
    var left := coinTypes;
    while left != {}
      invariant left <= coinTypes && symbolByCoinType.Keys == coinTypes
      invariant forall c | c in left :: symbolByCoinType[c] == FallbackSymbol(c)
      invariant forall c | c in coinTypes && c !in left :: symbolByCoinType[c] == SymbolOf(metadata, c)
      decreases left
    {
      var coinType :| coinType in left;
      var symbol := metadata(coinType);
      if symbol.Some? && symbol.value != "" {
        symbolByCoinType := symbolByCoinType[coinType := Trim(symbol.value)];
      }
      left := left - {coinType};
    }
  }

  method ResolveCetusFarmsPoolPairs(clmmPoolIds: seq<string>, objects: seq<Option<string>>,
                                    parse: string -> Option<PairTypes>, metadata: string -> Option<string>)
    returns (pairs: seq<PoolPair>)
    ensures pairs == Pairs(TypesOf(Dedup(clmmPoolIds), objects, parse), metadata)
  {
    hide SymbolOf, TypesOf, CoinsOf, Dedup;
    var types, coinTypes := CollectTypes(Dedup(clmmPoolIds), objects, parse);
    var symbolByCoinType := CollectSymbols(coinTypes, metadata);
    pairs := [];
    for k := 0 to |types|
      invariant |pairs| == k && forall j | 0 <= j < k :: pairs[j] == WithSymbols(metadata, types[j])
    {
      CoinsOfHas(types, k);
      var pair := types[k].1;
      pairs := pairs + [PoolPair(types[k].0, pair.coinTypeA, pair.coinTypeB,
                                 symbolByCoinType[pair.coinTypeA], symbolByCoinType[pair.coinTypeB])];
    }
  }

  // ---- building the index ----

  function NormalizeTokenSymbol(value: string): string {
    ToUpper(Trim(value))
  }

  predicate HasCoin(entries: seq<Entry>, coinType: string) {
    exists i | 0 <= i < |entries| :: entries[i].coinType == coinType
  }

  function EntriesFor(index: Index, symbol: string): seq<Entry> {
    if symbol in index then index[symbol] else []
  }

  /** One coin type entered under its symbol, unless it is there. */
  function AddCoin(index: Index, symbol: string, coinType: string): Index {
    var key := NormalizeTokenSymbol(symbol);
    var existing := EntriesFor(index, key);
    index[key := if HasCoin(existing, coinType) then existing else existing + [Entry(symbol, coinType)]]
  }

  function IndexOf(pairs: seq<PoolPair>): Index {
    if pairs == [] then map[]
    else
      var pair := pairs[|pairs| - 1];
      AddCoin(AddCoin(IndexOf(pairs[..|pairs| - 1]), pair.symbolA, pair.coinTypeA), pair.symbolB, pair.coinTypeB)
  }

  method Holds(entries: seq<Entry>, coinType: string) returns (found: bool)
    ensures found == HasCoin(entries, coinType)
  {
    for i := 0 to |entries|
      invariant forall k | 0 <= k < i :: entries[k].coinType != coinType
    {
      if entries[i].coinType == coinType {
        return true;
      }
    }
    return false;
  }

  method BuildTokenSymbolIndex(pairs: seq<PoolPair>) returns (index: Index)
    ensures index == IndexOf(pairs)
  {
    hide NormalizeTokenSymbol, HasCoin;
    index := map[];
    for k := 0 to |pairs|
      invariant index == IndexOf(pairs[..k])
    {
      var coinTypes := [Entry(pairs[k].symbolA, pairs[k].coinTypeA), Entry(pairs[k].symbolB, pairs[k].coinTypeB)];
      ghost var first := AddCoin(index, pairs[k].symbolA, pairs[k].coinTypeA);
      assert pairs[..k + 1][..k] == pairs[..k];
      assert IndexOf(pairs[..k + 1]) == AddCoin(first, pairs[k].symbolB, pairs[k].coinTypeB);
      ghost var before := index;
      for j := 0 to 2
        invariant index == if j == 0 then before else if j == 1 then first else IndexOf(pairs[..k + 1])
      {
        var coin := coinTypes[j];
        var normalizedSymbol := NormalizeTokenSymbol(coin.symbol);
        var existing := EntriesFor(index, normalizedSymbol);
        var found := Holds(existing, coin.coinType);
        if !found {
          existing := existing + [coin];
        }
        index := index[normalizedSymbol := existing];
      }
    }
    assert pairs[..|pairs|] == pairs;
  }

  // ---- what the index says ----

  predicate Carries(pair: PoolPair, symbol: string, coinType: string) {
    || (pair.coinTypeA == coinType && NormalizeTokenSymbol(pair.symbolA) == symbol)
    || (pair.coinTypeB == coinType && NormalizeTokenSymbol(pair.symbolB) == symbol)
  }

  predicate SomeCarries(pairs: seq<PoolPair>, symbol: string, coinType: string) {
    exists i | 0 <= i < |pairs| :: Carries(pairs[i], symbol, coinType)
  }

  predicate DistinctCoins(entries: seq<Entry>) {
    forall i, j | 0 <= i < j < |entries| :: entries[i].coinType != entries[j].coinType
  }

  lemma AddCoinAdds(index: Index, symbol: string, coinType: string, key: string, c: string)
    ensures HasCoin(EntriesFor(AddCoin(index, symbol, coinType), key), c)
       <==> HasCoin(EntriesFor(index, key), c) || (key == NormalizeTokenSymbol(symbol) && c == coinType)
    ensures DistinctCoins(EntriesFor(index, key)) ==> DistinctCoins(EntriesFor(AddCoin(index, symbol, coinType), key))
  {
    hide NormalizeTokenSymbol;
    var existing := EntriesFor(index, key);
    var more := existing + [Entry(symbol, coinType)];
    assert more[|existing|].coinType == coinType;
    assert forall i | 0 <= i < |existing| :: more[i] == existing[i];
  }

  /** A symbol maps to a coin type exactly when some pair carries it, and to none twice. */
  lemma {:induction false} IndexAgrees(pairs: seq<PoolPair>, symbol: string, coinType: string)
    ensures HasCoin(EntriesFor(IndexOf(pairs), symbol), coinType) <==> SomeCarries(pairs, symbol, coinType)
    ensures DistinctCoins(EntriesFor(IndexOf(pairs), symbol))
  {
    if pairs != [] {
      var init, pair := pairs[..|pairs| - 1], pairs[|pairs| - 1];
      IndexAgrees(init, symbol, coinType);
      SomeCarriesMore(init, pair, symbol, coinType);
      assert pairs == init + [pair];
      var first := AddCoin(IndexOf(init), pair.symbolA, pair.coinTypeA);
      hide NormalizeTokenSymbol, AddCoin, HasCoin, DistinctCoins, SomeCarries, EntriesFor;
      AddCoinAdds(IndexOf(init), pair.symbolA, pair.coinTypeA, symbol, coinType);
      AddCoinAdds(first, pair.symbolB, pair.coinTypeB, symbol, coinType);
    }
  }

  lemma SomeCarriesMore(pairs: seq<PoolPair>, pair: PoolPair, symbol: string, coinType: string)
    ensures SomeCarries(pairs + [pair], symbol, coinType)
       <==> SomeCarries(pairs, symbol, coinType) || Carries(pair, symbol, coinType)
  {
    hide Carries;
    var more := pairs + [pair];
    assert more[|pairs|] == pair;
    assert forall i | 0 <= i < |pairs| :: more[i] == pairs[i];
  }

  // ---- from pool ids to coin types ----

  /** resolveCetusTokenTypesBySymbol on a built index. */
  function TokenTypesBySymbol(index: Index, symbol: string): seq<string> {
    var entries := EntriesFor(index, NormalizeTokenSymbol(symbol));
    seq(|entries|, i requires 0 <= i < |entries| => entries[i].coinType)
  }

  predicate InPair(t: PairTypes, coinType: string) {
    t.coinTypeA == coinType || t.coinTypeB == coinType
  }

  /** The node answers, position by position, the type of the id asked. */
  predicate AnswersInOrder(ids: seq<string>, objects: seq<Option<string>>, typeOf: string -> Option<string>) {
    |objects| == |ids| && forall i | 0 <= i < |ids| :: objects[i] == typeOf(ids[i])
  }

  /** The coin types of a pool, by its own id. */
  function PoolTypes(typeOf: string -> Option<string>, parse: string -> Option<PairTypes>, id: string): Option<PairTypes> {
    if typeOf(id).Some? && typeOf(id).value != "" then parse(typeOf(id).value) else None
  }

  predicate SomePoolHas(ids: seq<string>, typeOf: string -> Option<string>, parse: string -> Option<PairTypes>,
                        coinType: string)
  {
    exists id | id in ids :: PoolTypes(typeOf, parse, id).Some? && InPair(PoolTypes(typeOf, parse, id).value, coinType)
  }

  predicate SomeTyped(types: seq<(string, PairTypes)>, coinType: string) {
    exists i | 0 <= i < |types| :: InPair(types[i].1, coinType)
  }

  lemma SomePoolHasMore(ids: seq<string>, id: string, typeOf: string -> Option<string>,
                        parse: string -> Option<PairTypes>, coinType: string)
    ensures SomePoolHas(ids + [id], typeOf, parse, coinType)
       <==> SomePoolHas(ids, typeOf, parse, coinType)
            || (PoolTypes(typeOf, parse, id).Some? && InPair(PoolTypes(typeOf, parse, id).value, coinType))
  {
    hide PoolTypes, InPair;
    assert id in ids + [id];
    assert forall x :: x in ids + [id] <==> x in ids || x == id;
  }

  lemma SomeTypedMore(types: seq<(string, PairTypes)>, t: (string, PairTypes), coinType: string)
    ensures SomeTyped(types + [t], coinType) <==> SomeTyped(types, coinType) || InPair(t.1, coinType)
  {
    hide InPair;
    var more := types + [t];
    assert more[|types|] == t;
    assert forall i | 0 <= i < |types| :: more[i] == types[i];
  }

  lemma {:induction false} TypesPrefix(ids: seq<string>, objects: seq<Option<string>>,
                                       more: seq<Option<string>>, parse: string -> Option<PairTypes>)
    requires |ids| <= |objects| && objects <= more
    ensures TypesOf(ids, objects, parse) == TypesOf(ids, more, parse)
  {
    if ids != [] {
      TypesPrefix(ids[..|ids| - 1], objects, more, parse);
      assert objects[|ids| - 1] == more[|ids| - 1];
    }
  }

  /** Joining by position joins by id. */
  lemma {:induction false} JoinIsById(ids: seq<string>, objects: seq<Option<string>>, typeOf: string -> Option<string>,
                                      parse: string -> Option<PairTypes>, coinType: string)
    requires AnswersInOrder(ids, objects, typeOf)
    ensures SomeTyped(TypesOf(ids, objects, parse), coinType) <==> SomePoolHas(ids, typeOf, parse, coinType)
  {
    if ids != [] {
      var n := |ids| - 1;
      var init, last := ids[..n], ids[n];
      assert AnswersInOrder(init, objects[..n], typeOf);
      JoinIsById(init, objects[..n], typeOf, parse, coinType);
      TypesPrefix(init, objects[..n], objects, parse);
      assert ids == init + [last];
      assert TypeAt(objects, parse, n) == PoolTypes(typeOf, parse, last);
      hide SomeTyped, SomePoolHas, InPair, TypeAt, PoolTypes, AnswersInOrder;
      SomePoolHasMore(init, last, typeOf, parse, coinType);
      if PoolTypes(typeOf, parse, last).Some? {
        SomeTypedMore(TypesOf(init, objects, parse), (last, PoolTypes(typeOf, parse, last).value), coinType);
      }
    }
  }

  lemma SamePools(ids: seq<string>, others: seq<string>, typeOf: string -> Option<string>,
                  parse: string -> Option<PairTypes>, coinType: string)
    requires forall x :: x in ids <==> x in others
    ensures SomePoolHas(ids, typeOf, parse, coinType) <==> SomePoolHas(others, typeOf, parse, coinType)
  {
  }

  /** A pair carries a coin type under the symbol of that coin type, and no other. */
  lemma CarriedSymbol(types: seq<(string, PairTypes)>, metadata: string -> Option<string>, key: string, coinType: string)
    ensures SomeCarries(Pairs(types, metadata), key, coinType)
       <==> SomeTyped(types, coinType) && NormalizeTokenSymbol(SymbolOf(metadata, coinType)) == key
  {
    hide NormalizeTokenSymbol, SymbolOf;
    var pairs := Pairs(types, metadata);
    if SomeTyped(types, coinType) && NormalizeTokenSymbol(SymbolOf(metadata, coinType)) == key {
      var i :| 0 <= i < |types| && InPair(types[i].1, coinType);
      assert Carries(pairs[i], key, coinType);
    }
    if SomeCarries(pairs, key, coinType) {
      var i :| 0 <= i < |pairs| && Carries(pairs[i], key, coinType);
      assert InPair(types[i].1, coinType);
    }
  }

  lemma LookupHas(index: Index, symbol: string, coinType: string)
    ensures coinType in TokenTypesBySymbol(index, symbol)
       <==> HasCoin(EntriesFor(index, NormalizeTokenSymbol(symbol)), coinType)
    ensures DistinctCoins(EntriesFor(index, NormalizeTokenSymbol(symbol))) ==>
              NoDuplicates(TokenTypesBySymbol(index, symbol))
  {
    hide NormalizeTokenSymbol;
    var entries := EntriesFor(index, NormalizeTokenSymbol(symbol));
    var found := TokenTypesBySymbol(index, symbol);
    if HasCoin(entries, coinType) {
      var i :| 0 <= i < |entries| && entries[i].coinType == coinType;
      assert found[i] == coinType;
    }
  }

  /** The whole path: asked for a symbol, the index answers exactly the coin types of the
      given pools whose own symbol is the same up to case and outer white space, each once. */
  lemma LookupIsExact(ids: seq<string>, objects: seq<Option<string>>, typeOf: string -> Option<string>,
                      parse: string -> Option<PairTypes>, metadata: string -> Option<string>, symbol: string,
                      coinType: string)
    requires AnswersInOrder(Dedup(ids), objects, typeOf)
    ensures
      var index := IndexOf(Pairs(TypesOf(Dedup(ids), objects, parse), metadata));
      && (coinType in TokenTypesBySymbol(index, symbol)
          <==> SomePoolHas(ids, typeOf, parse, coinType)
               && NormalizeTokenSymbol(SymbolOf(metadata, coinType)) == NormalizeTokenSymbol(symbol))
      && NoDuplicates(TokenTypesBySymbol(index, symbol))
  {
    hide *;
    DedupSame(ids);
    var types := TypesOf(Dedup(ids), objects, parse);
    var key := NormalizeTokenSymbol(symbol);
    JoinIsById(Dedup(ids), objects, typeOf, parse, coinType);
    SamePools(Dedup(ids), ids, typeOf, parse, coinType);
    CarriedSymbol(types, metadata, key, coinType);
    IndexAgrees(Pairs(types, metadata), key, coinType);
    LookupHas(IndexOf(Pairs(types, metadata)), symbol, coinType);
  }

  // ---- pairs, symbols and letters, read off the answers ----

  /** Non-empty metadata gives its trimmed symbol, anything else the fallback. */
  predicate SymbolIs(metadata: string -> Option<string>, coinType: string, symbol: string) {
    if metadata(coinType).Some? && metadata(coinType).value != "" then symbol == Trim(metadata(coinType).value)
    else symbol == FallbackSymbol(coinType)
  }

  lemma SymbolOfIs(metadata: string -> Option<string>, coinType: string)
    ensures SymbolIs(metadata, coinType, SymbolOf(metadata, coinType))
  {
    hide Trim, FallbackSymbol;
  }

  lemma {:induction false} TypesAreAtTheirPlaces(ids: seq<string>, objects: seq<Option<string>>,
                                                 parse: string -> Option<PairTypes>)
    ensures forall id, t ::
      ((id, t) in TypesOf(ids, objects, parse)
       <==> (exists k | 0 <= k < |ids| :: ids[k] == id && TypeAt(objects, parse, k) == Some(t)))
  {
    hide TypeAt;
    if ids != [] {
      TypesAreAtTheirPlaces(ids[..|ids| - 1], objects, parse);
    }
  }

  /** Every entry is under one of the ids, and no two under the same. */
  predicate TypesAmong(types: seq<(string, PairTypes)>, ids: seq<string>) {
    && (forall i | 0 <= i < |types| :: types[i].0 in ids)
    && (forall i, j | 0 <= i < j < |types| :: types[i].0 != types[j].0)
  }

  lemma TypesAmongMore(types: seq<(string, PairTypes)>, ids: seq<string>, id: string, t: PairTypes)
    requires TypesAmong(types, ids) && id !in ids
    ensures TypesAmong(types, ids + [id]) && TypesAmong(types + [(id, t)], ids + [id])
  {
  }

  lemma {:induction false} TypesAreDistinct(ids: seq<string>, objects: seq<Option<string>>,
                                            parse: string -> Option<PairTypes>)
    requires NoDuplicates(ids)
    ensures TypesAmong(TypesOf(ids, objects, parse), ids)
  {
    hide TypeAt, TypesAmong;
    if ids == [] {
      NoTypesAmong();
    } else {
      var init, last := ids[..|ids| - 1], ids[|ids| - 1];
      assert NoDuplicates(init) && last !in init && ids == init + [last];
      TypesAreDistinct(init, objects, parse);
      var t := TypeAt(objects, parse, |init|);
      TypesAmongMore(TypesOf(init, objects, parse), init, last, if t.Some? then t.value else PairTypes("", ""));
    }
  }

  lemma NoTypesAmong()
    ensures TypesAmong([], [])
  {
  }

  lemma TypeOfId(ids: seq<string>, objects: seq<Option<string>>, typeOf: string -> Option<string>,
                 parse: string -> Option<PairTypes>, id: string, t: PairTypes)
    requires AnswersInOrder(ids, objects, typeOf)
    ensures (id, t) in TypesOf(ids, objects, parse) <==> id in ids && PoolTypes(typeOf, parse, id) == Some(t)
  {
    TypesAreAtTheirPlaces(ids, objects, parse);
    hide TypesOf;
  }

  /** The pairs resolved are exactly those of the given pools whose type is known, each pool
      once, under its own id, with its own coin types and their symbols. */
  lemma PairsAreOfTheirPools(ids: seq<string>, objects: seq<Option<string>>, typeOf: string -> Option<string>,
                             parse: string -> Option<PairTypes>, metadata: string -> Option<string>)
    requires AnswersInOrder(Dedup(ids), objects, typeOf)
    ensures
      var pairs := Pairs(TypesOf(Dedup(ids), objects, parse), metadata);
      && (forall p | p in pairs ::
            && p.poolId in ids && PoolTypes(typeOf, parse, p.poolId) == Some(PairTypes(p.coinTypeA, p.coinTypeB))
            && SymbolIs(metadata, p.coinTypeA, p.symbolA) && SymbolIs(metadata, p.coinTypeB, p.symbolB))
      && (forall id | id in ids && PoolTypes(typeOf, parse, id).Some? :: exists p :: p in pairs && p.poolId == id)
      && forall i, j | 0 <= i < j < |pairs| :: pairs[i].poolId != pairs[j].poolId
  {
    DedupSame(ids);
    var types := TypesOf(Dedup(ids), objects, parse);
    var pairs := Pairs(types, metadata);
    TypesAreDistinct(Dedup(ids), objects, parse);
    hide TypesOf, Dedup, PoolTypes, SymbolIs, SymbolOf, AnswersInOrder;
    forall p | p in pairs
      ensures p.poolId in ids && PoolTypes(typeOf, parse, p.poolId) == Some(PairTypes(p.coinTypeA, p.coinTypeB))
      ensures SymbolIs(metadata, p.coinTypeA, p.symbolA) && SymbolIs(metadata, p.coinTypeB, p.symbolB)
    {
      var i :| 0 <= i < |types| && p == WithSymbols(metadata, types[i]);
      assert types[i] == (p.poolId, PairTypes(p.coinTypeA, p.coinTypeB)) && types[i] in types;
      TypeOfId(Dedup(ids), objects, typeOf, parse, p.poolId, PairTypes(p.coinTypeA, p.coinTypeB));
      SymbolOfIs(metadata, p.coinTypeA);
      SymbolOfIs(metadata, p.coinTypeB);
    }
    forall id | id in ids && PoolTypes(typeOf, parse, id).Some? ensures exists p :: p in pairs && p.poolId == id {
      TypeOfId(Dedup(ids), objects, typeOf, parse, id, PoolTypes(typeOf, parse, id).value);
      var i :| 0 <= i < |types| && types[i] == (id, PoolTypes(typeOf, parse, id).value);
      assert pairs[i].poolId == id;
    }
  }

  /** The same character, or a Latin letter in its two cases. */
  predicate SameLetter(c: char, d: char) {
    c == d || ('a' <= c <= 'z' && d as int == c as int - 32) || ('a' <= d <= 'z' && c as int == d as int - 32)
  }

  /** Two symbols are looked up alike exactly when, trimmed, they agree letter by letter up to case. */
  lemma SameSymbolExactly(a: string, b: string)
    ensures NormalizeTokenSymbol(a) == NormalizeTokenSymbol(b)
       <==> && |Trim(a)| == |Trim(b)|
            && forall i | 0 <= i < |Trim(a)| :: SameLetter(Trim(a)[i], Trim(b)[i])
  {
    hide Trim;
    var s, t := Trim(a), Trim(b);
    forall i | 0 <= i < |s| && i < |t| ensures ToUpperChar(s[i]) == ToUpperChar(t[i]) <==> SameLetter(s[i], t[i]) {
      UpperIsSame(s[i], t[i]);
    }
    hide ToUpperChar, SameLetter;
    if NormalizeTokenSymbol(a) == NormalizeTokenSymbol(b) {
      assert |ToUpper(s)| == |ToUpper(t)|;
      forall i | 0 <= i < |s| ensures SameLetter(s[i], t[i]) {
        assert ToUpper(s)[i] == ToUpper(t)[i];
      }
    }
  }

  lemma UpperIsSame(c: char, d: char)
    ensures ToUpperChar(c) == ToUpperChar(d) <==> SameLetter(c, d)
  {
  }
}
