/** The cache of src/chains/sui/cetus-v2.ts around the index build as a state machine: a
    cache with an expiry, a map of the builds under way that callers share, and the steps
    in which a caller starts, a build ends and a waiting caller goes on. Every step reads a
    clock that does not run backwards. */
module CacheMachine {
  import opened Outcomes
  import opened SymbolIndex

  const TTL := 300000

  /** An entry of the cache. The last two fields are bookkeeping: the build it came from
      and the time it was stored. */
  datatype Cached = Cached(expiresAt: int, index: Index, build: nat, storedAt: int)

  /** A build promise. A failed one is done with no index; `at` is the time it was done. */
  datatype Build = Running(key: string) | Done(key: string, outcome: Option<Index>, at: int)

  /** A caller awaiting a build; only the one that started it stores the index. */
  datatype Waiter = Waiter(build: nat, starter: bool, askedAt: int)

  /** What a caller got, bookkeeping: when it asked, when it was answered, from which
      build, and from the cache or not. */
  datatype Answer = Answer(key: string, askedAt: int, at: int, index: Index, build: nat, cachedAt: Option<int>)

  /** `clock` is the time of the last step, bookkeeping like `answers`. */
  datatype System = System(cache: map<string, Cached>, inflight: map<string, nat>, builds: seq<Build>,
                           waiters: seq<Waiter>, answers: seq<Answer>, clock: int)

  function Initial(clock: int): System {
    System(map[], map[], [], [], [], clock)
  }

  datatype Event =
    | Get(key: string, now: int)
    | Settle(build: nat, outcome: Option<Index>, now: int)
    | Resume(waiter: nat, now: int)

  predicate Fresh(s: System, key: string, now: int) {
    key in s.cache && s.cache[key].expiresAt > now
  }

  function GetStep(s: System, key: string): System {
    if Fresh(s, key, s.clock) then
      var hit := s.cache[key];
      s.(answers := s.answers + [Answer(key, s.clock, s.clock, hit.index, hit.build, Some(hit.storedAt))])
    else if key in s.inflight then
      s.(waiters := s.waiters + [Waiter(s.inflight[key], false, s.clock)])
    else
      s.(builds := s.builds + [Running(key)], inflight := s.inflight[key := |s.builds|],
         waiters := s.waiters + [Waiter(|s.builds|, true, s.clock)])
  }

  /** The build ends, well or not, and the slot of its key is cleared. */
  function SettleStep(s: System, build: nat, outcome: Option<Index>): System {
    if build < |s.builds| && s.builds[build].Running? then
      var key := s.builds[build].key;
      s.(builds := s.builds[build := Done(key, outcome, s.clock)], inflight := s.inflight - {key})
    else s
  }

  predicate CanResume(s: System, waiter: nat) {
    waiter < |s.waiters| && s.waiters[waiter].build < |s.builds| && s.builds[s.waiters[waiter].build].Done?
  }

  /** A caller whose build has ended goes on: it throws, or stores if it started the build, and answers. */
  function ResumeStep(s: System, waiter: nat): System {
    if !CanResume(s, waiter) then s
    else
      var w := s.waiters[waiter];
      var b := s.builds[w.build];
      var t := s.(waiters := s.waiters[..waiter] + s.waiters[waiter + 1..]);
      if b.outcome.None? then t
      else
        var index := b.outcome.value;
        var c := Cached(s.clock + TTL, index, w.build, s.clock);
        var u := if w.starter then t.(cache := t.cache[b.key := c]) else t;
        u.(answers := u.answers + [Answer(b.key, w.askedAt, s.clock, index, w.build, None)])
  }

  function Step(s: System, e: Event): System {
    var t := s.(clock := e.now);
    match e
    case Get(key, _) => GetStep(t, key)
    case Settle(build, outcome, _) => SettleStep(t, build, outcome)
    case Resume(waiter, _) => ResumeStep(t, waiter)
  }

  function Run(s: System, es: seq<Event>): System
    decreases |es|
  {
    if es == [] then s else Run(Step(s, es[0]), es[1..])
  }

  /** The clock does not run backwards. */
  predicate InTime(clock: int, es: seq<Event>)
    decreases |es|
  {
    es != [] ==> clock <= es[0].now && InTime(es[0].now, es[1..])
  }

  // ---- the invariant ----

  predicate Built(s: System, build: nat, key: string, index: Index) {
    build < |s.builds| && s.builds[build].Done? && s.builds[build].key == key && s.builds[build].outcome == Some(index)
  }

  predicate InflightRuns(s: System) {
    forall key | key in s.inflight :: s.inflight[key] < |s.builds| && s.builds[s.inflight[key]] == Running(key)
  }

  predicate RunningInflight(s: System) {
    forall b | 0 <= b < |s.builds| ::
      if s.builds[b].Running? then s.builds[b].key in s.inflight && s.inflight[s.builds[b].key] == b
      else s.builds[b].at <= s.clock
  }

  /** The cached index is a finished build's, stored after the build was done. */
  predicate CachedGood(s: System, key: string, c: Cached) {
    && Built(s, c.build, key, c.index) && c.expiresAt == c.storedAt + TTL
    && s.builds[c.build].at <= c.storedAt <= s.clock
  }

  predicate CacheBuilt(s: System) {
    forall key | key in s.cache :: CachedGood(s, key, s.cache[key])
  }

  /** The caller asked before its build was done. */
  predicate WaiterGood(s: System, w: Waiter) {
    && w.build < |s.builds| && w.askedAt <= s.clock
    && (s.builds[w.build].Done? ==> w.askedAt <= s.builds[w.build].at)
  }

  predicate WaitersGood(s: System) {
    forall i | 0 <= i < |s.waiters| :: WaiterGood(s, s.waiters[i])
  }

  /** A cached answer's build was done, then stored, then within the time to live answered;
      a shared answer's build was done between the question and the answer. */
  predicate AnswerGood(s: System, a: Answer) {
    && Built(s, a.build, a.key, a.index)
    && match a.cachedAt
       case Some(storedAt) =>
         s.builds[a.build].at <= storedAt <= a.at < storedAt + TTL && a.askedAt == a.at
       case None => a.askedAt <= s.builds[a.build].at <= a.at
  }

  predicate AnswersGood(s: System) {
    forall i | 0 <= i < |s.answers| :: AnswerGood(s, s.answers[i])
  }

  predicate Inv(s: System) {
    InflightRuns(s) && RunningInflight(s) && CacheBuilt(s) && WaitersGood(s) && AnswersGood(s)
  }

  // ---- every step keeps it ----

  /** Done builds stay as they are from s to t, and time does not go back. */
  predicate Grown(s: System, t: System) {
    && |s.builds| <= |t.builds| && s.clock <= t.clock
    && forall b | 0 <= b < |s.builds| ::
         if s.builds[b].Done? then t.builds[b] == s.builds[b]
         else t.builds[b] == s.builds[b] || (t.builds[b].Done? && t.builds[b].at == t.clock)
  }

  lemma CacheGrows(s: System, t: System)
    requires CacheBuilt(s) && Grown(s, t) && t.cache == s.cache
    ensures CacheBuilt(t)
  {
  }

  lemma WaitersGrow(s: System, t: System, w: Waiter)
    requires WaiterGood(s, w) && Grown(s, t)
    ensures WaiterGood(t, w)
  {
  }

  lemma AnswersGrow(s: System, t: System)
    requires AnswersGood(s) && Grown(s, t) && t.answers == s.answers
    ensures AnswersGood(t)
  {
    forall i | 0 <= i < |t.answers| ensures AnswerGood(t, t.answers[i]) {
      assert AnswerGood(s, s.answers[i]);
    }
  }

  lemma TickKeeps(s: System, now: int)
    requires Inv(s) && s.clock <= now
    ensures Inv(s.(clock := now))
  {
    var t := s.(clock := now);
    assert Grown(s, t);
    hide Grown, WaiterGood, AnswerGood, CachedGood;
    CacheGrows(s, t);
    AnswersGrow(s, t);
    forall i | 0 <= i < |t.waiters| ensures WaiterGood(t, t.waiters[i]) {
      WaitersGrow(s, t, s.waiters[i]);
    }
  }

  lemma AnswerKeeps(s: System, a: Answer)
    requires Inv(s) && AnswerGood(s, a)
    ensures Inv(s.(answers := s.answers + [a]))
  {
    var t := s.(answers := s.answers + [a]);
    assert Grown(s, t);
    CacheGrows(s, t);
    hide Grown, Built;
    assert forall i | 0 <= i < |s.answers| :: t.answers[i] == s.answers[i] && AnswerGood(s, s.answers[i]);
  }

  lemma WaitKeeps(s: System, w: Waiter)
    requires Inv(s) && WaiterGood(s, w)
    ensures Inv(s.(waiters := s.waiters + [w]))
  {
    var t := s.(waiters := s.waiters + [w]);
    assert Grown(s, t);
    hide Grown, Built;
    CacheGrows(s, t);
    AnswersGrow(s, t);
  }

  lemma DropKeeps(s: System, i: nat)
    requires Inv(s) && i < |s.waiters|
    ensures Inv(s.(waiters := s.waiters[..i] + s.waiters[i + 1..]))
  {
    var t := s.(waiters := s.waiters[..i] + s.waiters[i + 1..]);
    assert Grown(s, t);
    hide Grown, Built;
    CacheGrows(s, t);
    AnswersGrow(s, t);
  }

  lemma StartKeeps(s: System, key: string)
    requires Inv(s) && key !in s.inflight
    ensures Inv(s.(builds := s.builds + [Running(key)], inflight := s.inflight[key := |s.builds|]))
  {
    var t := s.(builds := s.builds + [Running(key)], inflight := s.inflight[key := |s.builds|]);
    assert Grown(s, t);
    assert forall b | 0 <= b < |s.builds| :: t.builds[b] == s.builds[b];
    assert t.builds[|s.builds|] == Running(key);
    hide Grown, CachedGood, AnswerGood, WaiterGood;
    CacheGrows(s, t);
    AnswersGrow(s, t);
    forall i | 0 <= i < |t.waiters| ensures WaiterGood(t, t.waiters[i]) {
      WaitersGrow(s, t, s.waiters[i]);
    }
  }

  lemma StoreKeeps(s: System, key: string, c: Cached)
    requires Inv(s) && CachedGood(s, key, c)
    ensures Inv(s.(cache := s.cache[key := c]))
  {
    var t := s.(cache := s.cache[key := c]);
    assert Grown(s, t);
    AnswersGrow(s, t);
    hide Grown, AnswerGood;
  }

  lemma HitGood(s: System, key: string)
    requires Inv(s) && Fresh(s, key, s.clock)
    ensures var hit := s.cache[key];
      AnswerGood(s, Answer(key, s.clock, s.clock, hit.index, hit.build, Some(hit.storedAt)))
  {
    assert CachedGood(s, key, s.cache[key]);
  }

  lemma GetKeeps(s: System, key: string)
    requires Inv(s)
    ensures Inv(GetStep(s, key))
  {
    if Fresh(s, key, s.clock) {
      hide Inv, AnswerGood;
      var hit := s.cache[key];
      HitGood(s, key);
      AnswerKeeps(s, Answer(key, s.clock, s.clock, hit.index, hit.build, Some(hit.storedAt)));
    } else if key in s.inflight {
      assert InflightRuns(s);
      hide Inv;
      WaitKeeps(s, Waiter(s.inflight[key], false, s.clock));
    } else {
      hide Inv;
      StartKeeps(s, key);
      WaitKeeps(s.(builds := s.builds + [Running(key)], inflight := s.inflight[key := |s.builds|]),
                Waiter(|s.builds|, true, s.clock));
    }
  }

  lemma SettleKeeps(s: System, build: nat, outcome: Option<Index>)
    requires Inv(s)
    ensures Inv(SettleStep(s, build, outcome))
  {
    if build < |s.builds| && s.builds[build].Running? {
      var t := SettleStep(s, build, outcome);
      assert Grown(s, t);
      SettleSlots(s, build, outcome);
      hide Grown, CachedGood, AnswerGood, WaiterGood, InflightRuns, RunningInflight, SettleStep;
      CacheGrows(s, t);
      AnswersGrow(s, t);
      forall i | 0 <= i < |t.waiters| ensures WaiterGood(t, t.waiters[i]) {
        WaitersGrow(s, t, s.waiters[i]);
      }
    }
  }

  lemma SettleSlots(s: System, build: nat, outcome: Option<Index>)
    requires InflightRuns(s) && RunningInflight(s) && build < |s.builds| && s.builds[build].Running?
    ensures var t := SettleStep(s, build, outcome);
      && InflightRuns(t) && RunningInflight(t)
      && t.cache == s.cache && t.answers == s.answers && t.waiters == s.waiters
  {
  }

  lemma ResumeKeeps(s: System, waiter: nat)
    requires Inv(s)
    ensures Inv(ResumeStep(s, waiter))
  {
    if CanResume(s, waiter) {
      var w := s.waiters[waiter];
      var b := s.builds[w.build];
      var t := s.(waiters := s.waiters[..waiter] + s.waiters[waiter + 1..]);
      assert WaiterGood(s, w) && b.at <= s.clock;
      hide Inv;
      DropKeeps(s, waiter);
      if b.outcome.Some? {
        var c := Cached(s.clock + TTL, b.outcome.value, w.build, s.clock);
        StoreKeeps(t, b.key, c);
        var u := if w.starter then t.(cache := t.cache[b.key := c]) else t;
        AnswerKeeps(u, Answer(b.key, w.askedAt, s.clock, b.outcome.value, w.build, None));
      }
    }
  }

  lemma StepKeeps(s: System, e: Event)
    requires Inv(s) && s.clock <= e.now
    ensures Inv(Step(s, e)) && Step(s, e).clock == e.now
  {
    var t := s.(clock := e.now);
    StepClock(s, e);
    hide Inv, GetStep, SettleStep, ResumeStep;
    TickKeeps(s, e.now);
    match e
    case Get(key, _) => GetKeeps(t, key);
    case Settle(build, outcome, _) => SettleKeeps(t, build, outcome);
    case Resume(waiter, _) => ResumeKeeps(t, waiter);
  }

  lemma StepClock(s: System, e: Event)
    ensures Step(s, e).clock == e.now
  {
  }

  lemma {:induction false} RunKeeps(s: System, es: seq<Event>)
    requires Inv(s) && InTime(s.clock, es)
    ensures Inv(Run(s, es))
    decreases |es|
  {
    hide Inv, Step;
    if es != [] {
      StepKeeps(s, es[0]);
      RunKeeps(Step(s, es[0]), es[1..]);
    }
  }

  lemma InitialInv(clock: int)
    ensures Inv(Initial(clock))
  {
  }

  lemma Reachable(clock: int, es: seq<Event>)
    requires InTime(clock, es)
    ensures Inv(Run(Initial(clock), es))
  {
    InitialInv(clock);
    hide Inv, Run, InTime;
    RunKeeps(Initial(clock), es);
  }

  // ---- the main results ----

  /** However callers interleave, no two builds of one key run at once. */
  lemma OneBuildPerKey(clock: int, es: seq<Event>, a: nat, b: nat)
    requires InTime(clock, es)
    requires var s := Run(Initial(clock), es); a < |s.builds| && b < |s.builds|
    requires var s := Run(Initial(clock), es); s.builds[a].Running? && s.builds[b] == s.builds[a]
    ensures a == b
  {
    hide Run, InTime;
    Reachable(clock, es);
  }

  /** Every answer is the index of a finished build of its own key. From the cache: the build
      was done, then its index stored, and the answer given less than the time to live after
      the storing. Shared: the build was done while the caller waited. Callers that shared a
      build got one index. */
  lemma AnswersAreBuilt(clock: int, es: seq<Event>, i: nat, j: nat)
    requires InTime(clock, es)
    requires var s := Run(Initial(clock), es); i < |s.answers| && j < |s.answers|
    ensures
      var s := Run(Initial(clock), es);
      var a, b := s.answers[i], s.answers[j];
      && a.build < |s.builds| && s.builds[a.build].Done?
      && s.builds[a.build].key == a.key && s.builds[a.build].outcome == Some(a.index)
      && var doneAt := s.builds[a.build].at;
      && (match a.cachedAt
          case Some(storedAt) => doneAt <= storedAt <= a.askedAt == a.at < storedAt + 300000
          case None => a.askedAt <= doneAt <= a.at)
      && (a.build == b.build ==> a.key == b.key && a.index == b.index)
  {
    hide Run, InTime;
    Reachable(clock, es);
    var s := Run(Initial(clock), es);
    assert AnswerGood(s, s.answers[i]) && AnswerGood(s, s.answers[j]);
  }

  /** Every hit on this entry, now or later, answers with a build done less than the time to
      live before. */
  ghost predicate HitsAreWithinTtl(s: System, key: string)
    requires key in s.cache && s.cache[key].build < |s.builds| && s.builds[s.cache[key].build].Done?
  {
    forall now: int :: s.clock <= now && Fresh(s, key, now) ==> now < s.builds[s.cache[key].build].at + TTL
  }

  /** The time to live counts from the storing, not from the build. So a hit may be older than
      the time to live, by less than the gap between the two, and that happens exactly when
      there is a gap and the entry is still fresh. */
  lemma HitsAreWithinTtlExactly(clock: int, es: seq<Event>, key: string)
    requires InTime(clock, es) && key in Run(Initial(clock), es).cache
    ensures
      var s := Run(Initial(clock), es);
      var c := s.cache[key];
      && c.build < |s.builds| && s.builds[c.build].Done?
      && (HitsAreWithinTtl(s, key) <==> c.storedAt == s.builds[c.build].at || !Fresh(s, key, s.clock))
      && forall now: int :: Fresh(s, key, now) ==>
           now - s.builds[c.build].at < TTL + (c.storedAt - s.builds[c.build].at)
  {
    hide Run, InTime;
    Reachable(clock, es);
    var s := Run(Initial(clock), es);
    var c := s.cache[key];
    assert CachedGood(s, key, c);
    if c.storedAt > s.builds[c.build].at && Fresh(s, key, s.clock) {
      assert Fresh(s, key, c.expiresAt - 1);
    }
  }

  /** Such a hit: the build is done at 0 and stored at 1, and a call one time to live after
      the build is still answered from the cache. */
  lemma HitOlderThanTtl(key: string, index: Index)
    ensures
      var s := Run(Initial(0), [Get(key, 0), Settle(0, Some(index), 0), Resume(0, 1), Get(key, TTL)]);
      && s.builds == [Done(key, Some(index), 0)] && |s.answers| == 2
      && s.answers[1] == Answer(key, TTL, TTL, index, 0, Some(1))
  {
    var e1, e2, e3, e4 := Get(key, 0), Settle(0, Some(index), 0), Resume(0, 1), Get(key, TTL);
    var s1 := Step(Initial(0), e1);
    var s2 := Step(s1, e2);
    var s3 := Step(s2, e3);
    assert s2.builds == [Done(key, Some(index), 0)] && s2.waiters == [Waiter(0, true, 0)];
    assert s3.cache[key] == Cached(TTL + 1, index, 0, 1);
    RunFour(Initial(0), e1, e2, e3, e4);
  }

  lemma RunFour(s: System, e1: Event, e2: Event, e3: Event, e4: Event)
    ensures Run(s, [e1, e2, e3, e4]) == Step(Step(Step(Step(s, e1), e2), e3), e4)
  {
    hide Step;
    assert [e1, e2, e3, e4][1..] == [e2, e3, e4] && [e2, e3, e4][1..] == [e3, e4];
    assert [e3, e4][1..] == [e4] && [e4][1..] == [];
    var t := Step(Step(Step(s, e1), e2), e3);
    assert Run(t, [e4]) == Run(Step(t, e4), []);
    assert Run(Step(Step(s, e1), e2), [e3, e4]) == Run(t, [e4]);
  }

  lemma StepKeepsDone(s: System, e: Event, b: nat)
    requires b < |s.builds| && s.builds[b].Done?
    ensures b < |Step(s, e).builds| && Step(s, e).builds[b] == s.builds[b]
  {
  }

  lemma {:induction false} RunKeepsDone(s: System, es: seq<Event>, b: nat)
    requires b < |s.builds| && s.builds[b].Done?
    ensures b < |Run(s, es).builds| && Run(s, es).builds[b] == s.builds[b]
    decreases |es|
  {
    if es != [] {
      StepKeepsDone(s, es[0], b);
      hide Step;
      RunKeepsDone(Step(s, es[0]), es[1..], b);
    }
  }

  /** Whatever happens after a build failed, it stays failed, holds no slot, and neither the
      cache nor an answer ever comes from it; its callers go on without changing either. */
  lemma FailedBuildLeavesNoTrace(s: System, es: seq<Event>, b: nat)
    requires Inv(s) && InTime(s.clock, es) && b < |s.builds| && s.builds[b].Done? && s.builds[b].outcome.None?
    ensures
      var t := Run(s, es);
      && b < |t.builds| && t.builds[b] == s.builds[b]
      && (forall key | key in t.inflight :: t.inflight[key] != b)
      && (forall key | key in t.cache :: t.cache[key].build != b)
      && (forall i | 0 <= i < |t.answers| :: t.answers[i].build != b)
      && forall w: nat, now: int | w < |t.waiters| && t.waiters[w].build == b ::
           var u := Step(t, Resume(w, now));
           u.cache == t.cache && u.answers == t.answers && |u.waiters| == |t.waiters| - 1
  {
    RunKeeps(s, es);
    RunKeepsDone(s, es, b);
    hide Run, InTime;
    var t := Run(s, es);
    forall key | key in t.cache ensures t.cache[key].build != b {
      assert CachedGood(t, key, t.cache[key]);
    }
    forall i | 0 <= i < |t.answers| ensures t.answers[i].build != b {
      assert AnswerGood(t, t.answers[i]);
    }
  }

  /** A call starts a build exactly when nothing fresh is stored and none of its key runs. */
  lemma StartsOnlyWhenNeeded(clock: int, es: seq<Event>, key: string, now: int)
    requires InTime(clock, es)
    ensures
      var s := Run(Initial(clock), es);
      |Step(s, Get(key, now)).builds| > |s.builds|
      <==> !Fresh(s, key, now) && forall b | 0 <= b < |s.builds| :: s.builds[b] != Running(key)
  {
    hide Run, InTime;
    Reachable(clock, es);
    var s := Run(Initial(clock), es);
    if key in s.inflight {
      assert s.builds[s.inflight[key]] == Running(key);
    }
  }

  /** A finished build is not yet a stored one: a call that comes between the end of the
      build and its starter going on begins a second build. */
  lemma GapStartsSecondBuild(key: string, index: Index)
    ensures
      var s := Run(Initial(0), [Get(key, 0), Settle(0, Some(index), 0), Get(key, 0), Resume(0, 1)]);
      s.builds == [Done(key, Some(index), 0), Running(key)]
  {
    var e1, e2, e3, e4 := Get(key, 0), Settle(0, Some(index), 0), Get(key, 0), Resume(0, 1);
    var s1 := Step(Initial(0), e1);
    var s2 := Step(s1, e2);
    var s3 := Step(s2, e3);
    assert s1.builds == [Running(key)];
    assert s2.builds == [Done(key, Some(index), 0)] && key !in s2.inflight;
    assert s3.builds == [Done(key, Some(index), 0), Running(key)];
    RunFour(Initial(0), e1, e2, e3, e4);
  }
}
