/** The paging loops of fetchBurrowAssetsIndex (src/chains/near/burrow.ts) and
    fetchRefPools (src/chains/near/ref.ts) against a server holding a fixed list. */
module Paging {
  import opened Outcomes
  import opened RefPools

  function Min(x: nat, y: nat): nat {
    if x <= y then x else y
  }

  /** The server's answer: the slice [from, from + limit) of its list, never more than
      `cap` entries at a time. */
  function Page<T>(list: seq<T>, from: nat, limit: nat, cap: nat): seq<T> {
    if from >= |list| then [] else list[from..Min(from + Min(limit, cap), |list|)]
  }

  lemma PageIsSlice<T>(list: seq<T>, from: nat, limit: nat, cap: nat)
    requires from <= |list|
    ensures var page := Page(list, from, limit, cap);
      && |page| == Min(Min(limit, cap), |list| - from)
      && from + |page| <= |list| && page == list[from..from + |page|]
  {
  }

  // ---- Burrow ----

  /** How many entries the Burrow loop returns: all asked for when the server's own cap
      is no smaller than the page size, and one capped page when it is. */
  function BurrowCount(size: nat, maxAssets: nat, pageSize: nat, cap: nat): nat {
    if cap < pageSize then Min(size, Min(maxAssets, cap)) else Min(size, maxAssets)
  }

  method FetchBurrowAssetsIndex<T>(list: seq<T>, cap: nat, maxAssets: nat, requestedPageSize: nat)
    returns (assets: seq<T>)
    ensures assets == list[..BurrowCount(|list|, maxAssets, if requestedPageSize < 1 then 1 else requestedPageSize, cap)]
  {
    if maxAssets == 0 {
      return [];
    }
    var pageSize := if requestedPageSize < 1 then 1 else requestedPageSize;
    assets := [];
    var fromIndex := 0;
    while |assets| < maxAssets
      invariant fromIndex == |assets| <= Min(|list|, maxAssets) && assets == list[..fromIndex]
      invariant fromIndex > 0 ==> cap >= pageSize
      decreases maxAssets - |assets|
    {
      var page := Page(list, fromIndex, Min(pageSize, maxAssets - |assets|), cap);
      if |page| == 0 { break; }
      assets := assets + page;
      if |page| < pageSize { break; }
      fromIndex := fromIndex + |page|;
    }
  }

  /** The whole prefix is reconstructed exactly when the server's cap is no obstacle. */
  lemma BurrowComplete(size: nat, maxAssets: nat, pageSize: nat, cap: nat)
    ensures BurrowCount(size, maxAssets, pageSize, cap) == Min(size, maxAssets)
       <==> cap >= pageSize || cap >= Min(size, maxAssets)
  {
  }

  // ---- Ref pools ----

  /** One entry of the JSON payload; None marks a field or element of another type. */
  datatype RawPool =
    | NotAnObject
    | RawPool(id: Option<real>, tokenIds: Option<seq<Option<string>>>, amounts: Option<seq<Option<string>>>,
              totalFee: Option<real>, poolKind: Option<string>)

  function Strings(xs: seq<Option<string>>): seq<string> {
    if xs == [] then [] else (if xs[0].Some? then [xs[0].value] else []) + Strings(xs[1..])
  }

  /** The pool read from an entry at the given list index, unless it is malformed. */
  function ReadPool(raw: RawPool, index: nat): Option<RefPoolView> {
    if raw.NotAnObject? then None
    else
      var tokenIds := if raw.tokenIds.Some? then Strings(raw.tokenIds.value) else [];
      var amounts := if raw.amounts.Some? then Strings(raw.amounts.value) else [];
      if |tokenIds| < 2 || |amounts| < 2 then None
      else
        var id := if raw.id.Some? && raw.id.value == raw.id.value.Floor as real then raw.id.value.Floor else index;
        Some(RefPoolView(id, tokenIds, amounts, if raw.totalFee.Some? then raw.totalFee.value else 0.0, raw.poolKind))
  }

  /** The well-formed entries of list[..n] in order, each with its own id or its index. */
  function PoolsOf(list: seq<RawPool>, n: nat): seq<RefPoolView>
    requires n <= |list|
  {
    if n == 0 then []
    else
      var last := ReadPool(list[n - 1], n - 1);
      PoolsOf(list, n - 1) + if last.Some? then [last.value] else []
  }

  function PageLimit(limit: Option<real>): (n: nat)
    ensures 1 <= n <= 300 && (limit.None? ==> n == 200)
    ensures limit.Some? ==> (limit.value < 1.0 ==> n == 1) && (limit.value > 300.0 ==> n == 300)
    ensures limit.Some? && 1.0 <= limit.value <= 300.0 ==> n as real <= limit.value < n as real + 1.0
  {
    var l := (if limit.Some? then limit.value else 200.0).Floor;
    if l < 1 then 1 else if l > 300 then 300 else l
  }

  const MAX_PAGES := 40

  function RefCount(size: nat, pageLimit: nat, cap: nat): nat {
    if cap < pageLimit then Min(size, cap) else Min(size, MAX_PAGES * pageLimit)
  }

  /** Forty pages are read exactly when the server's cap is no obstacle, and all of the list
      exactly when, besides, it has no more than forty pages. */
  lemma RefComplete(size: nat, pageLimit: nat, cap: nat)
    requires pageLimit >= 1
    ensures RefCount(size, pageLimit, cap) == Min(size, 40 * pageLimit) <==> cap >= pageLimit || cap >= size
    ensures RefCount(size, pageLimit, cap) == size
       <==> size <= 40 * pageLimit && (cap >= pageLimit || cap >= size)
  {
  }

  lemma NextPage(page: nat, pageLimit: nat)
    requires page < MAX_PAGES
    ensures (page + 1) * pageLimit == page * pageLimit + pageLimit <= MAX_PAGES * pageLimit
  {
  }

  method FetchRefPools(list: seq<RawPool>, cap: nat, limit: Option<real>) returns (pools: seq<RefPoolView>)
    ensures pools == PoolsOf(list, RefCount(|list|, PageLimit(limit), cap))
  {
    pools := FetchPages(list, cap, PageLimit(limit));
  }

  /** The loop over the pages. */
  method FetchPages(list: seq<RawPool>, cap: nat, pageLimit: nat) returns (pools: seq<RefPoolView>)
    requires pageLimit >= 1
    ensures pools == PoolsOf(list, RefCount(|list|, pageLimit, cap))
  {
    hide Page, PoolsOf;
    pools := [];
    NoPools(list);
    var fromIndex := 0;
    for page := 0 to MAX_PAGES
      invariant fromIndex == page * pageLimit <= |list|
      invariant page > 0 ==> cap >= pageLimit
      invariant pools == PoolsOf(list, fromIndex)
    {
      var chunk := Page(list, fromIndex, pageLimit, cap);
      PageIsSlice(list, fromIndex, pageLimit, cap);
      NextPage(page, pageLimit);
      if |chunk| == 0 {
        return;
      }
      pools := AppendChunk(list, fromIndex, chunk, pools);
      if |chunk| < pageLimit {
        return;
      }
      fromIndex := fromIndex + |chunk|;
    }
  }

  lemma NoPools(list: seq<RawPool>)
    ensures PoolsOf(list, 0) == []
  {
  }

  /** The inner loop over one chunk. */
  method AppendChunk(ghost list: seq<RawPool>, fromIndex: nat, chunk: seq<RawPool>, start: seq<RefPoolView>)
    returns (pools: seq<RefPoolView>)
    requires fromIndex + |chunk| <= |list| && chunk == list[fromIndex..fromIndex + |chunk|]
    requires start == PoolsOf(list, fromIndex)
    ensures pools == PoolsOf(list, fromIndex + |chunk|)
  {
    pools := start;
    for offset := 0 to |chunk|
      invariant pools == PoolsOf(list, fromIndex + offset)
    {
      assert chunk[offset] == list[fromIndex + offset];
      var read := ReadPool(chunk[offset], fromIndex + offset);
      if read.None? { continue; }
      pools := pools + [read.value];
    }
  }

  /** A pool is returned exactly when it is read from a well-formed entry among those paged
      through, under its own integer id or else under its place in the whole list. */
  lemma {:induction false} PoolsOfExact(list: seq<RawPool>, n: nat, p: RefPoolView)
    requires n <= |list|
    ensures p in PoolsOf(list, n) <==> exists i :: 0 <= i < n && ReadPool(list[i], i) == Some(p)
  {
    if n > 0 {
      PoolsOfExact(list, n - 1, p);
    }
  }

  /** The texts of a list in their order: the only function that drops what is no text, keeps
      a text, and works piece by piece. */
  lemma {:induction false} StringsKeepOrder(xs: seq<Option<string>>, ys: seq<Option<string>>, text: string)
    ensures Strings(xs + ys) == Strings(xs) + Strings(ys)
    ensures Strings([Some(text)]) == [text] && Strings([None]) == [] && Strings([]) == []
    decreases |xs|
  {
    var missing: seq<Option<string>> := [None];
    assert [Some(text)][1..] == [] && missing[1..] == [];
    if xs == [] {
      assert xs + ys == ys;
    } else {
      assert (xs + ys)[1..] == xs[1..] + ys;
      StringsKeepOrder(xs[1..], ys, text);
    }
  }

  predicate IsWhole(v: real, k: int) {
    v == k as real
  }

  /** The id of an entry: its own when that is a whole number, else its place in the list. */
  ghost predicate IdIs(raw: RawPool, index: nat, id: int)
    requires raw.RawPool?
  {
    match raw.id
    case None => id == index
    case Some(v) => v == id as real || (id == index && forall k :: !IsWhole(v, k))
  }

  /** A pool read, field by field against its entry: an entry is read exactly when it is an
      object with at least two tokens and two amounts; tokens and amounts are its texts in
      order, the fee is its own or zero, the kind its own. */
  lemma ReadPoolExactly(raw: RawPool, index: nat, p: RefPoolView)
    ensures ReadPool(raw, index) == Some(p)
       <==> && raw.RawPool? && IdIs(raw, index, p.id)
            && p.tokenIds == (if raw.tokenIds.Some? then Strings(raw.tokenIds.value) else [])
            && p.amounts == (if raw.amounts.Some? then Strings(raw.amounts.value) else [])
            && |p.tokenIds| >= 2 && |p.amounts| >= 2
            && p.totalFee == (if raw.totalFee.Some? then raw.totalFee.value else 0.0) && p.poolKind == raw.poolKind
  {
    hide Strings;
    if raw.RawPool? && raw.id.Some? {
      WholeIsFloor(raw.id.value, p.id);
    }
  }

  lemma WholeIsFloor(v: real, id: int)
    ensures v == id as real <==> v == v.Floor as real && id == v.Floor
    ensures v != v.Floor as real <==> forall k :: !IsWhole(v, k)
  {
    assert v == v.Floor as real ==> IsWhole(v, v.Floor);
  }
}
