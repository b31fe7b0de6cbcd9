/** Scans that keep the best hit seen so far, replace it only by a strictly better
    one, and stop at the first call that throws. */
module Scan {
  import opened Outcomes

  datatype Scored<+T> = Scored(item: T, amount: int)

  /** What one step of a scan meets: a candidate, or a call that throws. */
  datatype Visit<+T> = Hit(hit: Scored<T>) | Thrown

  function Better<T>(best: Option<Scored<T>>, s: Scored<T>): Option<Scored<T>> {
    if best.None? || s.amount > best.value.amount then Some(s) else best
  }

  /** The scan's result over the visits, starting from `best`; None when it throws. */
  function Settle<T>(best: Option<Scored<T>>, visits: seq<Visit<T>>): Option<Option<Scored<T>>>
    decreases |visits|
  {
    if visits == [] then Some(best)
    else if visits[0].Thrown? then None
    else Settle(Better(best, visits[0].hit), visits[1..])
  }

  /** b stands at position i, beats everything before and is matched by nothing after. */
  predicate FirstBestAt<T(==)>(b: Scored<T>, visits: seq<Visit<T>>, i: nat) {
    && i < |visits| && visits[i] == Hit(b)
    && (forall j | 0 <= j < i :: visits[j].Hit? ==> visits[j].hit.amount < b.amount)
    && (forall j | i <= j < |visits| :: visits[j].Hit? ==> visits[j].hit.amount <= b.amount)
  }

  lemma {:induction false} SettleFrom<T>(best: Option<Scored<T>>, visits: seq<Visit<T>>)
    ensures Settle(best, visits) == None <==> Thrown in visits
    ensures Settle(best, visits).Some? ==>
      var b := Settle(best, visits).value;
      || (b == best && forall v | v in visits :: best.Some? && v.hit.amount <= best.value.amount)
      || (b.Some? && (best.Some? ==> best.value.amount < b.value.amount)
          && exists i :: FirstBestAt(b.value, visits, i))
    decreases |visits|
  {
    if visits != [] && visits[0].Hit? {
      var next := Better(best, visits[0].hit);
      SettleFrom(next, visits[1..]);
      var r := Settle(next, visits[1..]);
      assert visits == [visits[0]] + visits[1..];
      if r.Some? {
        if r.value != next {
          var i: nat :| FirstBestAt(r.value.value, visits[1..], i);
          assert FirstBestAt(r.value.value, visits, i + 1);
        } else if next != best {
          assert FirstBestAt(r.value.value, visits, 0);
        }
      }
    }
  }

  /** A scan throws exactly when some visit throws, finds nothing exactly when there is
      no hit, and otherwise returns the first of the best hits. */
  lemma SettleIsFirstBest<T>(visits: seq<Visit<T>>)
    ensures Settle(None, visits) == None <==> Thrown in visits
    ensures Settle(None, visits) == Some(None) <==> visits == []
    ensures Settle(None, visits).Some? && Settle(None, visits).value.Some? ==>
      exists i :: FirstBestAt(Settle(None, visits).value.value, visits, i)
  {
    SettleFrom(None, visits);
    assert visits != [] ==> visits[0] in visits;
  }

  // ---- enumerations ----

  function FlatMap<A, B>(xs: seq<A>, f: A -> seq<B>): seq<B> {
    if xs == [] then [] else f(xs[0]) + FlatMap(xs[1..], f)
  }

  lemma {:induction false} InFlatMap<A, B>(xs: seq<A>, f: A -> seq<B>, b: B)
    ensures b in FlatMap(xs, f) <==> exists x :: x in xs && b in f(x)
  {
    if xs != [] {
      InFlatMap(xs[1..], f, b);
      assert xs == [xs[0]] + xs[1..];
    }
  }

  lemma {:induction false} SettleAppend<T>(best: Option<Scored<T>>, a: seq<Visit<T>>, b: seq<Visit<T>>)
    ensures Settle(best, a + b)
         == if Settle(best, a).None? then None else Settle(Settle(best, a).value, b)
    decreases |a|
  {
    if a == [] {
      assert a + b == b;
    } else {
      assert (a + b)[1..] == a[1..] + b;
      if a[0].Hit? {
        SettleAppend(Better(best, a[0].hit), a[1..], b);
      }
    }
  }

  /** One turn of a loop over xs, with the visits of the turns still to come. */
  lemma LoopTurn<A, T>(best: Option<Scored<T>>, xs: seq<A>, i: nat, f: A -> seq<Visit<T>>)
    requires i < |xs|
    ensures Settle(best, FlatMap(xs[i..], f))
         == if Settle(best, f(xs[i])).None? then None
            else Settle(Settle(best, f(xs[i])).value, FlatMap(xs[i + 1..], f))
  {
    assert xs[i..][1..] == xs[i + 1..];
    SettleAppend(best, f(xs[i]), FlatMap(xs[i + 1..], f));
  }
}
