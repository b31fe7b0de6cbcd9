/** The module state of src/chains/sui/cetus-v2.ts, the cache and the map of builds under
    way, updated in place against the steps of CacheMachine. */
module TokenSymbolCache {
  import opened Outcomes
  import opened SymbolIndex
  import opened CacheMachine

  /** How a call goes on: with an index at once, or waiting for a build. */
  datatype Outlook = Now(index: Index) | Await(build: nat, starter: bool)

  class SymbolCache {
    var cache: map<string, Cached>
    var inflight: map<string, nat>
    var builds: seq<Build>
    var waiters: seq<Waiter>
    ghost var answers: seq<Answer>
    ghost var clock: int

    ghost function Abs(): System
      reads this
    {
      System(cache, inflight, builds, waiters, answers, clock)
    }

    ghost predicate Valid()
      reads this
    {
      Inv(Abs())
    }

    constructor (ghost now: int)
      ensures Valid() && Abs() == Initial(now)
    {
      cache, inflight, builds, waiters, answers, clock := map[], map[], [], [], [], now;
      new;
      InitialInv(now);
    }

    /** getTokenSymbolIndex up to its await. */
    method GetTokenSymbolIndex(cacheKey: string, now: int) returns (r: Outlook)
      requires Valid() && clock <= now
      modifies this
      ensures Valid() && Abs() == Step(old(Abs()), Get(cacheKey, now))
      ensures r.Now? <==> Fresh(old(Abs()), cacheKey, now)
      ensures r.Now? ==> r.index == old(cache)[cacheKey].index
      ensures r.Await? ==> cacheKey in inflight && inflight[cacheKey] == r.build
                           && waiters == old(waiters) + [Waiter(r.build, r.starter, now)]
      ensures r.Await? ==> (r.starter <==> cacheKey !in old(inflight))
    {
      hide Inv;
      StepKeeps(Abs(), Get(cacheKey, now));
      clock := now;
      if cacheKey in cache && cache[cacheKey].expiresAt > now {
        var hit := cache[cacheKey];
        answers := answers + [Answer(cacheKey, now, now, hit.index, hit.build, Some(hit.storedAt))];
        return Now(hit.index);
      }
      if cacheKey in inflight {
        waiters := waiters + [Waiter(inflight[cacheKey], false, now)];
        return Await(inflight[cacheKey], false);
      }
      var promise := |builds|;
      builds := builds + [Running(cacheKey)];
      inflight := inflight[cacheKey := promise];
      waiters := waiters + [Waiter(promise, true, now)];
      return Await(promise, true);
    }

    /** A build promise settles and its finally handler runs. */
    method SettleBuild(build: nat, outcome: Option<Index>, now: int)
      requires Valid() && build < |builds| && builds[build].Running? && clock <= now
      modifies this`builds, this`inflight, this`clock
      ensures Valid() && Abs() == Step(old(Abs()), Settle(build, outcome, now))
    {
      hide Inv;
      StepKeeps(Abs(), Settle(build, outcome, now));
      clock := now;
      var cacheKey := builds[build].key;
      builds := builds[build := Done(cacheKey, outcome, now)];
      inflight := inflight - {cacheKey};
    }

    /** A waiting caller goes on once its build has settled; None when it throws. */
    method ResumeCaller(waiter: nat, now: int) returns (r: Option<Index>)
      requires Valid() && waiter < |waiters| && clock <= now
      requires waiters[waiter].build < |builds| && builds[waiters[waiter].build].Done?
      modifies this
      ensures Valid() && Abs() == Step(old(Abs()), Resume(waiter, now))
      ensures r == builds[old(waiters)[waiter].build].outcome
    {
      hide Inv;
      StepKeeps(Abs(), Resume(waiter, now));
      clock := now;
      var w := waiters[waiter];
      waiters := waiters[..waiter] + waiters[waiter + 1..];
      r := builds[w.build].outcome;
      if r.None? {
        return;
      }
      var cacheKey := builds[w.build].key;
      if w.starter {
        cache := cache[cacheKey := Cached(now + TTL, r.value, w.build, now)];
      }
      answers := answers + [Answer(cacheKey, w.askedAt, now, r.value, w.build, None)];
    }
  }
}
