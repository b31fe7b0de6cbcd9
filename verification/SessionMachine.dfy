/** The confirm sessions of the EVM transfer and swap workflows
    (src/chains/evm/tools/transfer-workflow.ts, swap-workflow.ts) as a state machine.
    Each tool call runs up to its first await in one step, `Call`; a preview or a send then
    ends in a later step, `Finish`, so calls may overlap. The parameters are taken as
    parsed; the confirm token is any function of run id, network and intent. */
module SessionMachine {
  import opened Outcomes
  import opened JsText
  import PolicyMachine

  datatype Intent =
    | NativeTransfer(toAddress: string, amountNative: Option<real>, amountWei: Option<string>)
    | Erc20Transfer(tokenAddress: string, tokenSymbol: Option<string>, toAddress: string, amountRaw: string)
    | PancakeV2Swap(tokenIn: string, tokenOut: string, amountInRaw: string, toAddress: string,
                    amountOutMinRaw: Option<string>, slippageBps: Option<real>, deadlineMinutes: Option<real>)

  /** What a confirmation is about, and all a session keeps of it. */
  datatype Session = Session(runId: string, network: string, intent: Intent)

  datatype Mode = Analysis | Simulate | Execute

  /** `normalize` is normalizeIntent on the call's parameters, None when it throws; `freshId`
      the identifier drawn when none is given; `ready` the config check of the swap
      workflow, always true in the transfer workflow. */
  datatype Request = Request(mode: Mode, runId: Option<string>, network: Option<string>, hasIntent: bool,
                             normalize: string -> Option<Intent>, confirmToken: Option<string>,
                             hintToken: Option<string>, confirmMainnet: bool, freshId: string, ready: bool)

  datatype Refusal = BadIntent | ConfigBlocked | MainnetBlocked | InvalidConfirmToken

  /** A completed preview or analysis, or a transaction handed to the send tool. */
  datatype Deed =
    | Shown(session: Session)
    | Sent(session: Session, confirmMainnet: bool, provided: Option<string>)

  /** A call waiting for its preview or for its transaction. */
  datatype Waiting = Waiting(session: Session, preview: bool)

  /** `byRunId` and `latest` are the code's state, `waiting` the calls under way; `deeds`
      is the history the properties speak of. */
  datatype System = System(byRunId: map<string, Session>, latest: Option<Session>, waiting: seq<Waiting>,
                           deeds: seq<Deed>)

  const INITIAL := System(map[], None, [], [])

  datatype Event =
    | Call(request: Request)
    | Finish(index: nat, ok: bool)

  const NETWORKS := ["ethereum", "sepolia", "polygon", "base", "arbitrum", "optimism", "bsc", "berachain", "monad"]

  function ParseNetwork(value: Option<string>): string {
    if value.Some? && value.value in NETWORKS then value.value else "polygon"
  }

  predicate Given(text: Option<string>) {
    text.Some? && Trim(text.value) != ""
  }

  /** JavaScript's `a || b` on texts that may be missing. */
  function FirstTruthy(a: Option<string>, b: Option<string>): Option<string> {
    if a.Some? && a.value != "" then a else b
  }

  function CreateRunId(input: Option<string>, freshId: string): string {
    if Given(input) then Trim(input.value) else freshId
  }

  function ReadSession(s: System, runId: Option<string>): Option<Session> {
    if Given(runId) then
      if Trim(runId.value) in s.byRunId then Some(s.byRunId[Trim(runId.value)]) else None
    else s.latest
  }

  function Remember(s: System, session: Session): System {
    s.(byRunId := s.byRunId[session.runId := session], latest := Some(session))
  }

  function Prior(s: System, r: Request): Option<Session> {
    if r.mode == Execute then ReadSession(s, r.runId) else None
  }

  /** The session a call is about; None when its intent is refused. */
  function SessionOf(r: Request, prior: Option<Session>): Option<Session> {
    var runId := CreateRunId(FirstTruthy(r.runId, if prior.Some? then Some(prior.value.runId) else None), r.freshId);
    var network :=
      ParseNetwork(FirstTruthy(r.network, if prior.Some? then Some(prior.value.network) else None));
    var intent := if prior.Some? && !r.hasIntent then Some(prior.value.intent) else r.normalize(network);
    if intent.Some? then Some(Session(runId, network, intent.value)) else None
  }

  function Provided(r: Request): Option<string> {
    if Given(r.confirmToken) then Some(Trim(r.confirmToken.value))
    else if Given(r.hintToken) then Some(Trim(r.hintToken.value))
    else None
  }

  /** The gate before the send tool. */
  function Gate(token: Session -> string, r: Request, prior: Option<Session>, session: Session): Option<Refusal> {
    if !PolicyMachine.IsMainnetLike(session.network) then None
    else if !r.confirmMainnet then Some(MainnetBlocked)
    else if !(prior == Some(session) && Provided(r).None?) && Provided(r) != Some(token(session)) then
      Some(InvalidConfirmToken)
    else None
  }

  /** Why a call throws before its first await; None when it does not. */
  function RefusalOf(token: Session -> string, s: System, r: Request): Option<Refusal> {
    var session := SessionOf(r, Prior(s, r));
    if session.None? then Some(BadIntent)
    else match r.mode
      case Analysis => None
      case Simulate => if r.ready then None else Some(ConfigBlocked)
      case Execute => if r.ready then Gate(token, r, Prior(s, r), session.value) else Some(ConfigBlocked)
  }

  function CallStep(token: Session -> string, s: System, r: Request): System {
    if RefusalOf(token, s, r).Some? then s
    else
      var session := SessionOf(r, Prior(s, r)).value;
      match r.mode
      case Analysis => if r.ready then Remember(s, session).(deeds := s.deeds + [Shown(session)]) else s
      case Simulate => s.(waiting := s.waiting + [Waiting(session, true)])
      case Execute =>
        s.(waiting := s.waiting + [Waiting(session, false)],
           deeds := s.deeds + [Sent(session, r.confirmMainnet, Provided(r))])
  }

  /** A preview is remembered even when it failed, a transaction only when it was submitted. */
  function FinishStep(s: System, index: nat, ok: bool): System {
    if index >= |s.waiting| then s
    else
      var w := s.waiting[index];
      var t := s.(waiting := s.waiting[..index] + s.waiting[index + 1..]);
      if w.preview then Remember(t, w.session).(deeds := s.deeds + [Shown(w.session)])
      else if ok then Remember(t, w.session)
      else t
  }

  function Step(token: Session -> string, s: System, e: Event): System {
    match e
    case Call(request) => CallStep(token, s, request)
    case Finish(index, ok) => FinishStep(s, index, ok)
  }

  function Run(token: Session -> string, s: System, es: seq<Event>): System
    decreases |es|
  {
    if es == [] then s else Run(token, Step(token, s, es[0]), es[1..])
  }

  /** Generated identifiers have no white space around them. */
  predicate GoodEvent(e: Event) {
    e.Call? ==> Trim(e.request.freshId) == e.request.freshId != ""
  }

  // ---- what counts as a confirmation ----

  /** This deed shows, or carries the token of, exactly this session. */
  predicate Vouches(token: Session -> string, d: Deed, session: Session) {
    d.session == session && (d.Sent? ==> d.provided == Some(token(session)))
  }

  predicate Vouched(token: Session -> string, deeds: seq<Deed>, session: Session) {
    exists i | 0 <= i < |deeds| :: Vouches(token, deeds[i], session)
  }

  /** A send on a mainnet-like network was confirmed: with its own token, or without one
      after a deed vouching for the very same session. */
  predicate Confirmed(token: Session -> string, before: seq<Deed>, d: Deed) {
    d.Sent? && PolicyMachine.IsMainnetLike(d.session.network) ==>
      d.confirmMainnet
      && (d.provided == Some(token(d.session)) || (d.provided.None? && Vouched(token, before, d.session)))
  }

  predicate AllConfirmed(token: Session -> string, deeds: seq<Deed>) {
    forall i | 0 <= i < |deeds| :: Confirmed(token, deeds[..i], deeds[i])
  }

  predicate GoodSession(session: Session) {
    Trim(session.runId) == session.runId != "" && session.network in NETWORKS
  }

  /** Sessions stay filed under their own id, and those on a mainnet-like network are vouched for. */
  predicate Kept(token: Session -> string, deeds: seq<Deed>, session: Session) {
    GoodSession(session) && (PolicyMachine.IsMainnetLike(session.network) ==> Vouched(token, deeds, session))
  }

  predicate Filed(token: Session -> string, s: System) {
    forall id | id in s.byRunId :: s.byRunId[id].runId == id && Kept(token, s.deeds, s.byRunId[id])
  }

  predicate LatestFiled(s: System) {
    if s.latest.Some? then s.latest.value.runId in s.byRunId && s.byRunId[s.latest.value.runId] == s.latest.value
    else s.byRunId == map[]
  }

  predicate WaitingKept(token: Session -> string, s: System) {
    forall i | 0 <= i < |s.waiting| ::
      if s.waiting[i].preview then GoodSession(s.waiting[i].session) else Kept(token, s.deeds, s.waiting[i].session)
  }

  predicate Inv(token: Session -> string, s: System) {
    LatestFiled(s) && Filed(token, s) && WaitingKept(token, s) && AllConfirmed(token, s.deeds)
  }

  // ---- every step keeps it ----

  lemma VouchedGrows(token: Session -> string, deeds: seq<Deed>, d: Deed, session: Session)
    ensures Vouched(token, deeds, session) ==> Vouched(token, deeds + [d], session)
    ensures Vouches(token, d, session) ==> Vouched(token, deeds + [d], session)
  {
    hide Vouches;
    var more := deeds + [d];
    assert more[|deeds|] == d;
    if Vouched(token, deeds, session) {
      var i :| 0 <= i < |deeds| && Vouches(token, deeds[i], session);
      assert more[i] == deeds[i];
    }
  }

  lemma KeptGrows(token: Session -> string, deeds: seq<Deed>, d: Deed, session: Session)
    requires Kept(token, deeds, session)
    ensures Kept(token, deeds + [d], session)
  {
    hide Vouched, Vouches, GoodSession;
    VouchedGrows(token, deeds, d, session);
  }

  /** A further deed that is itself confirmed breaks nothing. */
  lemma DeedKeeps(token: Session -> string, s: System, d: Deed)
    requires Inv(token, s) && Confirmed(token, s.deeds, d)
    ensures Inv(token, s.(deeds := s.deeds + [d]))
  {
    hide Confirmed, Kept, GoodSession;
    var t := s.(deeds := s.deeds + [d]);
    forall id | id in t.byRunId ensures Kept(token, t.deeds, t.byRunId[id]) {
      KeptGrows(token, s.deeds, d, s.byRunId[id]);
    }
    forall i | 0 <= i < |t.waiting| && !t.waiting[i].preview ensures Kept(token, t.deeds, t.waiting[i].session) {
      KeptGrows(token, s.deeds, d, s.waiting[i].session);
    }
    forall i | 0 <= i < |t.deeds| ensures Confirmed(token, t.deeds[..i], t.deeds[i]) {
      assert t.deeds[..i] == s.deeds[..i];
      assert s.deeds[..|s.deeds|] == s.deeds;
    }
  }

  lemma RememberKeeps(token: Session -> string, s: System, session: Session)
    requires Inv(token, s) && Kept(token, s.deeds, session)
    ensures Inv(token, Remember(s, session))
  {
    hide Kept, AllConfirmed, GoodSession;
  }

  lemma WaitKeeps(token: Session -> string, s: System, w: Waiting)
    requires Inv(token, s) && if w.preview then GoodSession(w.session) else Kept(token, s.deeds, w.session)
    ensures Inv(token, s.(waiting := s.waiting + [w]))
  {
    hide Kept, AllConfirmed, GoodSession;
  }

  lemma DropKeeps(token: Session -> string, s: System, index: nat)
    requires Inv(token, s) && index < |s.waiting|
    ensures Inv(token, s.(waiting := s.waiting[..index] + s.waiting[index + 1..]))
  {
    hide Kept, AllConfirmed, GoodSession;
  }

  lemma PriorKept(token: Session -> string, s: System, r: Request)
    requires Inv(token, s)
    ensures Prior(s, r).Some? ==> Kept(token, s.deeds, Prior(s, r).value)
  {
    hide Kept, AllConfirmed, GoodSession, WaitingKept;
  }

  lemma ParsedNetworkKnown(value: Option<string>)
    ensures ParseNetwork(value) in NETWORKS
  {
    assert NETWORKS[2] == "polygon";
  }

  lemma SessionIsGood(r: Request, prior: Option<Session>)
    requires GoodEvent(Call(r)) && SessionOf(r, prior).Some?
    ensures GoodSession(SessionOf(r, prior).value)
  {
    ParsedNetworkKnown(FirstTruthy(r.network, if prior.Some? then Some(prior.value.network) else None));
    var input := FirstTruthy(r.runId, if prior.Some? then Some(prior.value.runId) else None);
    hide FirstTruthy, ParseNetwork, Trim;
    if Given(input) {
      TrimIdempotent(input.value);
    }
  }

  /** A call let through the gate is confirmed, and its session vouched for once it is on record. */
  lemma GateConfirms(token: Session -> string, s: System, r: Request, session: Session)
    requires Inv(token, s) && Gate(token, r, Prior(s, r), session).None? && GoodSession(session)
    ensures
      var d := Sent(session, r.confirmMainnet, Provided(r));
      Confirmed(token, s.deeds, d) && Kept(token, s.deeds + [d], session)
  {
    PriorKept(token, s, r);
    var d := Sent(session, r.confirmMainnet, Provided(r));
    VouchedGrows(token, s.deeds, d, session);
    hide Vouched, GoodSession, Inv, Prior, Provided;
  }

  lemma AnalysisKeeps(token: Session -> string, s: System, session: Session)
    requires Inv(token, s) && GoodSession(session)
    ensures Inv(token, Remember(s, session).(deeds := s.deeds + [Shown(session)]))
  {
    VouchedGrows(token, s.deeds, Shown(session), session);
    DeedKeeps(token, s, Shown(session));
    hide Inv, Vouched, GoodSession;
    RememberKeeps(token, s.(deeds := s.deeds + [Shown(session)]), session);
  }

  lemma CallKeeps(token: Session -> string, s: System, r: Request)
    requires Inv(token, s) && GoodEvent(Call(r))
    ensures Inv(token, CallStep(token, s, r))
  {
    if RefusalOf(token, s, r).None? {
      hide Inv, Prior, SessionOf, GoodSession, Kept, Confirmed, Gate, GoodEvent, Provided, Remember;
      var session := SessionOf(r, Prior(s, r)).value;
      SessionIsGood(r, Prior(s, r));
      match r.mode
      case Analysis => AnalysisKeeps(token, s, session);
      case Simulate => WaitKeeps(token, s, Waiting(session, true));
      case Execute =>
        var d := Sent(session, r.confirmMainnet, Provided(r));
        GateConfirms(token, s, r, session);
        DeedKeeps(token, s, d);
        WaitKeeps(token, s.(deeds := s.deeds + [d]), Waiting(session, false));
    }
  }

  lemma FinishKeeps(token: Session -> string, s: System, index: nat, ok: bool)
    requires Inv(token, s)
    ensures Inv(token, FinishStep(s, index, ok))
  {
    if index < |s.waiting| {
      assert WaitingKept(token, s);
      var w := s.waiting[index];
      hide Inv, GoodSession, Kept, Remember;
      DropKeeps(token, s, index);
      var t := s.(waiting := s.waiting[..index] + s.waiting[index + 1..]);
      if w.preview {
        AnalysisKeeps(token, t, w.session);
        RememberOrder(t, w.session, s.deeds + [Shown(w.session)]);
      } else if ok {
        RememberKeeps(token, t, w.session);
      }
    }
  }

  lemma RememberOrder(s: System, session: Session, deeds: seq<Deed>)
    ensures Remember(s, session).(deeds := deeds) == Remember(s.(deeds := deeds), session)
  {
  }

  lemma StepKeeps(token: Session -> string, s: System, e: Event)
    requires Inv(token, s) && GoodEvent(e)
    ensures Inv(token, Step(token, s, e))
  {
    hide Inv, CallStep, FinishStep, GoodEvent;
    match e
    case Call(request) => CallKeeps(token, s, request);
    case Finish(index, ok) => FinishKeeps(token, s, index, ok);
  }

  lemma {:induction false} RunKeeps(token: Session -> string, s: System, es: seq<Event>)
    requires Inv(token, s) && forall i | 0 <= i < |es| :: GoodEvent(es[i])
    ensures Inv(token, Run(token, s, es))
    decreases |es|
  {
    hide Inv, Step, GoodEvent;
    if es != [] {
      StepKeeps(token, s, es[0]);
      RunKeeps(token, Step(token, s, es[0]), es[1..]);
    }
  }

  lemma InitialInv(token: Session -> string)
    ensures Inv(token, INITIAL)
  {
  }

  lemma Reachable(token: Session -> string, es: seq<Event>)
    requires forall i | 0 <= i < |es| :: GoodEvent(es[i])
    ensures Inv(token, Run(token, INITIAL, es))
  {
    hide Inv, Run, GoodEvent;
    InitialInv(token);
    RunKeeps(token, INITIAL, es);
  }

  // ---- the main results ----

  /** In every run, whatever reaches the send tool on a mainnet-like network had the mainnet
      confirmation and either the token of exactly its session or an earlier completed
      analysis or preview, or token-confirmed send, of exactly that session. */
  lemma SendsAreConfirmed(token: Session -> string, es: seq<Event>, i: nat)
    requires forall k | 0 <= k < |es| :: GoodEvent(es[k])
    requires i < |Run(token, INITIAL, es).deeds|
    requires
      var d := Run(token, INITIAL, es).deeds[i];
      d.Sent? && PolicyMachine.IsMainnetLike(d.session.network)
    ensures
      var deeds := Run(token, INITIAL, es).deeds;
      && deeds[i].confirmMainnet
      && (|| deeds[i].provided == Some(token(deeds[i].session))
          || exists j | 0 <= j < i ::
               deeds[j].session == deeds[i].session
               && (deeds[j].Shown? || deeds[j].provided == Some(token(deeds[i].session))))
  {
    Reachable(token, es);
    hide Run, GoodEvent, Filed, LatestFiled, WaitingKept;
    var deeds := Run(token, INITIAL, es).deeds;
    assert Confirmed(token, deeds[..i], deeds[i]);
    if deeds[i].provided != Some(token(deeds[i].session)) {
      var j :| 0 <= j < i && Vouches(token, deeds[..i][j], deeds[i].session);
      assert deeds[..i][j] == deeds[j];
    }
  }

  /** latestSession is the map's entry for its own run id, and every entry has its key. */
  lemma LatestIsFiled(token: Session -> string, es: seq<Event>)
    requires forall k | 0 <= k < |es| :: GoodEvent(es[k])
    ensures
      var s := Run(token, INITIAL, es);
      && (s.latest.Some? ==> ReadSession(s, Some(s.latest.value.runId)) == s.latest)
      && (s.latest.None? <==> s.byRunId == map[])
      && forall id | id in s.byRunId :: s.byRunId[id].runId == id
  {
    Reachable(token, es);
    hide Run, GoodEvent, WaitingKept, AllConfirmed, Vouched;
  }

  /** A follow-up that confirms the mainnet and names at most a run id. */
  predicate BareExecute(r: Request) {
    && r.mode == Execute && (r.network.Some? ==> r.network.value == "") && !r.hasIntent
    && Provided(r).None? && r.confirmMainnet && r.ready
  }

  /** A run id that is given, but of nothing but white space. */
  predicate BlankRunId(r: Request) {
    r.runId.Some? && r.runId.value != "" && Trim(r.runId.value) == ""
  }

  /** What a bare follow-up on a session is about: a blank run id is replaced by a new one. */
  function FollowedUp(r: Request, found: Session): Session {
    if BlankRunId(r) then found.(runId := r.freshId) else found
  }

  lemma FoundIsGood(token: Session -> string, s: System, runId: Option<string>)
    requires Inv(token, s) && ReadSession(s, runId).Some?
    ensures GoodSession(ReadSession(s, runId).value)
    ensures Given(runId) ==> ReadSession(s, runId).value.runId == Trim(runId.value)
  {
    hide AllConfirmed, WaitingKept, GoodSession, Vouched, Trim;
  }

  lemma BareIsAbout(r: Request, found: Session)
    requires BareExecute(r) && GoodSession(found) && (Given(r.runId) ==> found.runId == Trim(r.runId.value))
    ensures SessionOf(r, Some(found)) == Some(FollowedUp(r, found))
  {
    assert found.network != "";
    assert Trim("") == "";
    hide Trim, Provided;
  }

  lemma BareGoesThrough(token: Session -> string, s: System, r: Request, found: Session)
    requires BareExecute(r) && Prior(s, r) == Some(found) && SessionOf(r, Some(found)) == Some(FollowedUp(r, found))
    ensures RefusalOf(token, s, r)
         == if PolicyMachine.IsMainnetLike(found.network) && FollowedUp(r, found) != found then Some(InvalidConfirmToken)
            else None
    ensures RefusalOf(token, s, r).None? ==>
              CallStep(token, s, r).deeds == s.deeds + [Sent(FollowedUp(r, found), true, None)]
  {
    hide SessionOf, Provided, Prior, BlankRunId;
  }

  lemma PriorIsRead(s: System, r: Request)
    requires BareExecute(r)
    ensures Prior(s, r) == ReadSession(s, r.runId)
  {
    hide ReadSession, Provided;
  }

  lemma RefusedChangesNothing(token: Session -> string, s: System, r: Request)
    ensures RefusalOf(token, s, r).Some? ==> CallStep(token, s, r) == s
  {
    hide RefusalOf, SessionOf;
  }

  lemma FollowedUpIsFound(r: Request, found: Session)
    ensures FollowedUp(r, found) == found <==> !BlankRunId(r) || r.freshId == found.runId
  {
    hide BlankRunId;
  }

  /** A bare follow-up on the session remembered under the run id given, or last when none is
      given: it is refused exactly when the run id is blank and, on a mainnet-like network,
      the new id drawn for it is not by chance the session's. When it goes through, exactly
      that session is sent, under the new id if the one given was blank. */
  lemma FollowUpSendsTheSession(token: Session -> string, es: seq<Event>, r: Request)
    requires forall k | 0 <= k < |es| :: GoodEvent(es[k])
    requires BareExecute(r) && ReadSession(Run(token, INITIAL, es), r.runId).Some?
    ensures
      var s := Run(token, INITIAL, es);
      var found := ReadSession(s, r.runId).value;
      var refused := BlankRunId(r) && PolicyMachine.IsMainnetLike(found.network) && r.freshId != found.runId;
      && RefusalOf(token, s, r) == (if refused then Some(InvalidConfirmToken) else None)
      && (if refused then CallStep(token, s, r) == s
          else CallStep(token, s, r).deeds == s.deeds + [Sent(FollowedUp(r, found), true, None)])
  {
    hide *;
    Reachable(token, es);
    var s := Run(token, INITIAL, es);
    PriorIsRead(s, r);
    RefusedChangesNothing(token, s, r);
    var found := ReadSession(s, r.runId).value;
    FoundIsGood(token, s, r.runId);
    BareIsAbout(r, found);
    BareGoesThrough(token, s, r, found);
    FollowedUpIsFound(r, found);
  }

  /** Without a token a mainnet-like send goes through exactly when the mainnet is confirmed
      and the session found is, in run id, network and intent, the one to be sent: a changed
      amount or recipient has to be shown again, or given its own token. */
  lemma TokenlessNeedsSameSession(token: Session -> string, s: System, r: Request)
    requires r.mode == Execute && Provided(r).None? && r.ready
    requires SessionOf(r, Prior(s, r)).Some?
    requires PolicyMachine.IsMainnetLike(SessionOf(r, Prior(s, r)).value.network)
    ensures
      var session := SessionOf(r, Prior(s, r)).value;
      CallStep(token, s, r) != s <==> r.confirmMainnet && ReadSession(s, r.runId) == Some(session)
  {
    hide SessionOf, ReadSession, Provided;
    var session := SessionOf(r, Prior(s, r)).value;
    var t := CallStep(token, s, r);
    assert t != s ==> RefusalOf(token, s, r).None?;
    if RefusalOf(token, s, r).None? {
      assert |t.waiting| == |s.waiting| + 1;
    }
  }

  /** A run id of white space finds the latest session but never executes it without a
      token: the call gets a new id, which no session has. */
  lemma BlankRunIdNeverMatches(token: Session -> string, s: System, r: Request)
    requires Inv(token, s) && r.mode == Execute && r.runId.Some? && r.runId.value != "" && Trim(r.runId.value) == ""
    requires r.freshId !in s.byRunId && Provided(r).None? && r.ready
    requires SessionOf(r, Prior(s, r)).Some?
    requires PolicyMachine.IsMainnetLike(SessionOf(r, Prior(s, r)).value.network)
    ensures ReadSession(s, r.runId) == s.latest
    ensures CallStep(token, s, r) == s
  {
    var session := SessionOf(r, Prior(s, r)).value;
    assert session.runId == r.freshId;
    hide SessionOf, WaitingKept, AllConfirmed, Kept;
    assert s.latest.Some? ==> s.latest.value.runId in s.byRunId;
    TokenlessNeedsSameSession(token, s, r);
  }

  // ---- every call, read off its parameters ----

  predicate NamesRunId(r: Request) {
    r.runId.Some? && Trim(r.runId.value) != ""
  }

  /** The session an execute finds: the one under the run id it names, else the latest; the
      other modes find none. */
  predicate Finds(s: System, r: Request, found: Option<Session>) {
    && (r.mode != Execute ==> found == None)
    && (r.mode == Execute && NamesRunId(r) ==>
          if Trim(r.runId.value) in s.byRunId then found == Some(s.byRunId[Trim(r.runId.value)]) else found == None)
    && (r.mode == Execute && !NamesRunId(r) ==> found == s.latest)
  }

  /** The run id: the one named; a new one for a blank text; else that of the session found,
      or a new one. */
  predicate RunIdIs(r: Request, found: Option<Session>, runId: string) {
    if NamesRunId(r) then runId == Trim(r.runId.value)
    else if r.runId.Some? && r.runId.value != "" then runId == r.freshId
    else if found.Some? then runId == found.value.runId
    else runId == r.freshId
  }

  /** The network: the one given, when it is known; polygon for an unknown one; else that of
      the session found, or polygon. */
  predicate NetworkIs(r: Request, found: Option<Session>, network: string) {
    if r.network.Some? && r.network.value != "" then
      network == if r.network.value in ["ethereum", "sepolia", "base", "arbitrum", "optimism", "bsc", "berachain", "monad"]
                 then r.network.value else "polygon"
    else if found.Some? then network == found.value.network
    else network == "polygon"
  }

  /** What a call is about: an intent given with the call always counts; only a call without
      one takes over that of the session found. */
  predicate About(r: Request, found: Option<Session>, session: Session) {
    && RunIdIs(r, found, session.runId) && NetworkIs(r, found, session.network)
    && (if found.Some? && !r.hasIntent then session.intent == found.value.intent
        else r.normalize(session.network) == Some(session.intent))
  }

  /** The token carried: the parameter's, else the one in the text. */
  predicate Carries(r: Request, carried: Option<string>) {
    if r.confirmToken.Some? && Trim(r.confirmToken.value) != "" then carried == Some(Trim(r.confirmToken.value))
    else if r.hintToken.Some? && Trim(r.hintToken.value) != "" then carried == Some(Trim(r.hintToken.value))
    else carried == None
  }

  lemma FindsPrior(token: Session -> string, s: System, r: Request, found: Option<Session>)
    requires Inv(token, s)
    ensures Finds(s, r, found) <==> Prior(s, r) == found
    ensures Prior(s, r).Some? ==> GoodSession(Prior(s, r).value)
  {
    PriorKept(token, s, r);
    hide Inv, Trim, Vouched, GoodSession;
  }

  lemma RunIdOf(r: Request, found: Option<Session>, runId: string)
    requires found.Some? ==> GoodSession(found.value)
    ensures var input := FirstTruthy(r.runId, if found.Some? then Some(found.value.runId) else None);
      RunIdIs(r, found, runId) <==> runId == CreateRunId(input, r.freshId)
  {
    assert Trim("") == "";
    hide Trim;
  }

  lemma NetworkOf(r: Request, found: Option<Session>, network: string)
    requires found.Some? ==> GoodSession(found.value)
    ensures var input := FirstTruthy(r.network, if found.Some? then Some(found.value.network) else None);
      NetworkIs(r, found, network) <==> network == ParseNetwork(input)
  {
    hide Trim;
  }

  lemma SessionIsAbout(r: Request, found: Option<Session>, session: Session)
    requires found.Some? ==> GoodSession(found.value)
    ensures SessionOf(r, found) == Some(session) <==> About(r, found, session)
  {
    hide RunIdIs, NetworkIs, FirstTruthy, CreateRunId, ParseNetwork, GoodSession;
    RunIdOf(r, found, session.runId);
    NetworkOf(r, found, session.network);
  }

  lemma ProvidedIsCarried(r: Request, carried: Option<string>)
    ensures Carries(r, carried) <==> Provided(r) == carried
  {
    hide Trim;
  }

  /** When an execute about this session reaches the send tool. */
  predicate GoesThrough(token: Session -> string, r: Request, found: Option<Session>, carried: Option<string>,
                        session: Session)
  {
    || session.network == "sepolia"
    || (r.confirmMainnet && (carried == Some(token(session)) || (carried == None && found == Some(session))))
  }

  /** In every reachable state, what any call does, read off its parameters. A call that is
      about no session is refused. An analysis remembers its session, and a preview waits for
      it, when the configuration is ready. An execute sends exactly its session, when ready, off
      the mainnet-like networks always, and on them exactly when the mainnet is confirmed and it
      carries the token of that session, or none and the session found is that very session. */
  lemma CallExactly(token: Session -> string, es: seq<Event>, r: Request, found: Option<Session>,
                    carried: Option<string>)
    requires forall k | 0 <= k < |es| :: GoodEvent(es[k])
    requires Finds(Run(token, INITIAL, es), r, found) && Carries(r, carried)
    ensures
      var s := Run(token, INITIAL, es);
      var t := CallStep(token, s, r);
      && ((forall session :: !About(r, found, session)) ==> t == s)
      && forall session | About(r, found, session) ::
           match r.mode
           case Analysis =>
             t == if r.ready then
                    System(s.byRunId[session.runId := session], Some(session), s.waiting, s.deeds + [Shown(session)])
                  else s
           case Simulate => t == if r.ready then s.(waiting := s.waiting + [Waiting(session, true)]) else s
           case Execute =>
             t == if r.ready && GoesThrough(token, r, found, carried, session) then
                    s.(waiting := s.waiting + [Waiting(session, false)],
                       deeds := s.deeds + [Sent(session, r.confirmMainnet, carried)])
                  else s
  {
    hide *;
    Reachable(token, es);
    var s := Run(token, INITIAL, es);
    FindsPrior(token, s, r, found);
    ProvidedIsCarried(r, carried);
    forall session ensures SessionOf(r, found) == Some(session) <==> About(r, found, session) {
      SessionIsAbout(r, found, session);
    }
    if SessionOf(r, found).Some? {
      StepOf(token, s, r, found, SessionOf(r, found).value);
    } else {
      StepOfNone(token, s, r);
    }
  }

  lemma StepOfNone(token: Session -> string, s: System, r: Request)
    requires SessionOf(r, Prior(s, r)).None?
    ensures CallStep(token, s, r) == s
  {
    hide SessionOf, Prior;
  }

  lemma StepOf(token: Session -> string, s: System, r: Request, found: Option<Session>, session: Session)
    requires Prior(s, r) == found && SessionOf(r, found) == Some(session)
    ensures var t := CallStep(token, s, r);
      match r.mode
      case Analysis =>
        t == if r.ready then
               System(s.byRunId[session.runId := session], Some(session), s.waiting, s.deeds + [Shown(session)])
             else s
      case Simulate => t == if r.ready then s.(waiting := s.waiting + [Waiting(session, true)]) else s
      case Execute =>
        t == if r.ready && GoesThrough(token, r, found, Provided(r), session) then
               s.(waiting := s.waiting + [Waiting(session, false)],
                  deeds := s.deeds + [Sent(session, r.confirmMainnet, Provided(r))])
             else s
  {
    hide SessionOf, Prior, Provided;
  }

  /** A new intent is never sent on the strength of an old one: without a token, on a
      mainnet-like network, an execute that gives an intent other than the remembered one is
      refused, whatever its run id; and what it is about is always the intent it gives. */
  lemma NewIntentNeedsToken(token: Session -> string, es: seq<Event>, r: Request, found: Option<Session>,
                            session: Session)
    requires forall k | 0 <= k < |es| :: GoodEvent(es[k])
    requires Finds(Run(token, INITIAL, es), r, found) && Carries(r, None) && About(r, found, session)
    requires r.mode == Execute && r.hasIntent && session.network != "sepolia"
    requires found.Some? ==> r.normalize(session.network) != Some(found.value.intent)
    ensures CallStep(token, Run(token, INITIAL, es), r) == Run(token, INITIAL, es)
    ensures r.normalize(session.network) == Some(session.intent)
  {
    hide *;
    CallExactly(token, es, r, found, None);
    NewIntentStops(token, r, found, session);
  }

  lemma NewIntentStops(token: Session -> string, r: Request, found: Option<Session>, session: Session)
    requires About(r, found, session) && r.hasIntent && session.network != "sepolia"
    requires found.Some? ==> r.normalize(session.network) != Some(found.value.intent)
    ensures r.normalize(session.network) == Some(session.intent) && !GoesThrough(token, r, found, None, session)
  {
    hide RunIdIs, NetworkIs;
  }
}
