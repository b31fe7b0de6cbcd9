/** `Array.prototype.sort` with a comparator, as a stable insertion sort over the
    strict order "the comparator is negative". */
module Sorting {

  ghost predicate StrictWeakOrder<T(!new)>(less: (T, T) -> bool) {
    && (forall x :: !less(x, x))
    && (forall x, y, z :: less(x, y) && less(y, z) ==> less(x, z))
    && (forall x, y, z :: less(x, z) ==> less(x, y) || less(y, z))
  }

  /** No later element comes strictly before an earlier one. */
  ghost predicate SortedBy<T>(less: (T, T) -> bool, s: seq<T>) {
    forall i, j | 0 <= i < j < |s| :: !less(s[j], s[i])
  }

  /** Put x after everything it does not come strictly before. */
  function Insert<T>(less: (T, T) -> bool, x: T, s: seq<T>): seq<T> {
    if s == [] then [x]
    else if less(x, s[0]) then [x] + s
    else [s[0]] + Insert(less, x, s[1..])
  }

  function Sort<T>(less: (T, T) -> bool, xs: seq<T>): seq<T> {
    if xs == [] then [] else Insert(less, xs[|xs| - 1], Sort(less, xs[..|xs| - 1]))
  }

  lemma {:induction false} InsertPermutes<T>(less: (T, T) -> bool, x: T, s: seq<T>)
    ensures multiset(Insert(less, x, s)) == multiset(s) + multiset{x}
  {
    if s != [] {
      assert s == [s[0]] + s[1..];
      if !less(x, s[0]) {
        InsertPermutes(less, x, s[1..]);
      }
    }
  }

  lemma InMultiset<T>(s: seq<T>, t: seq<T>, x: T, y: T)
    requires multiset(t) == multiset(s) + multiset{x} && y in t
    ensures y == x || y in s
  {
    assert y in multiset(t);
  }

  lemma {:induction false} InsertSorts<T(!new)>(less: (T, T) -> bool, x: T, s: seq<T>)
    requires StrictWeakOrder(less) && SortedBy(less, s)
    ensures SortedBy(less, Insert(less, x, s))
  {
    if s != [] && !less(x, s[0]) {
      InsertSorts(less, x, s[1..]);
      var t := Insert(less, x, s[1..]);
      InsertPermutes(less, x, s[1..]);
      forall j | 0 <= j < |t| ensures !less(t[j], s[0]) {
        InMultiset(s[1..], t, x, t[j]);
      }
    }
  }

  /** Sorting permutes and sorts. */
  lemma {:induction false} SortSorts<T(!new)>(less: (T, T) -> bool, xs: seq<T>)
    requires StrictWeakOrder(less)
    ensures SortedBy(less, Sort(less, xs)) && multiset(Sort(less, xs)) == multiset(xs)
    ensures |Sort(less, xs)| == |xs|
  {
    hide *;
    if xs == [] {
      SortNone(less);
    } else {
      var init, last := xs[..|xs| - 1], xs[|xs| - 1];
      SortSorts(less, init);
      SortLast(less, xs);
      InsertSorts(less, last, Sort(less, init));
      InsertPermutes(less, last, Sort(less, init));
      assert xs == init + [last];
      assert |multiset(Sort(less, xs))| == |multiset(xs)|;
    }
  }

  lemma SortNone<T>(less: (T, T) -> bool)
    ensures Sort(less, []) == [] && SortedBy(less, [])
  {
  }

  lemma SortLast<T>(less: (T, T) -> bool, xs: seq<T>)
    requires xs != []
    ensures Sort(less, xs) == Insert(less, xs[|xs| - 1], Sort(less, xs[..|xs| - 1]))
  {
    hide Insert;
  }

  lemma HeadNotBefore<T>(less: (T, T) -> bool, x: T, t: seq<T>)
    requires SortedBy(less, t) && x in t
    ensures x == t[0] || !less(x, t[0])
  {
    var i :| 0 <= i < |t| && t[i] == x;
  }

  lemma TailMultiset<T>(s: seq<T>)
    requires s != []
    ensures multiset(s) == multiset{s[0]} + multiset(s[1..])
  {
    assert s == [s[0]] + s[1..];
  }

  /** When distinct elements are always ordered, a multiset has one sorted listing. */
  lemma {:induction false} SortedUnique<T(!new)>(less: (T, T) -> bool, s: seq<T>, t: seq<T>)
    requires SortedBy(less, s) && SortedBy(less, t) && multiset(s) == multiset(t)
    requires forall x, y :: x in s && y in s && x != y ==> less(x, y) || less(y, x)
    ensures s == t
    decreases |s|
  {
    assert |multiset(s)| == |multiset(t)|;
    if s != [] {
      assert s[0] in multiset(t) && t[0] in multiset(s);
      HeadNotBefore(less, s[0], t);
      HeadNotBefore(less, t[0], s);
      TailMultiset(s);
      TailMultiset(t);
      assert multiset(s[1..]) == multiset(s) - multiset{s[0]};
      SortedUnique(less, s[1..], t[1..]);
    }
  }
}
