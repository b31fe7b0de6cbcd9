/** The session state of one EVM workflow tool, updated in place as in
    src/chains/evm/tools/transfer-workflow.ts and swap-workflow.ts, against the steps of
    SessionMachine. */
module WorkflowSessions {
  import opened Outcomes
  import opened JsText
  import opened SessionMachine
  import PolicyMachine

  class Workflow {
    const token: Session -> string
    var sessionByRunId: map<string, Session>
    var latestSession: Option<Session>
    var waiting: seq<Waiting>
    ghost var deeds: seq<Deed>

    ghost function Abs(): System
      reads this
    {
      System(sessionByRunId, latestSession, waiting, deeds)
    }

    ghost predicate Valid()
      reads this
    {
      Inv(token, Abs())
    }

    constructor (token: Session -> string)
      ensures this.token == token && Abs() == INITIAL && Valid()
    {
      this.token := token;
      sessionByRunId, latestSession, waiting, deeds := map[], None, [], [];
      new;
      InitialInv(token);
    }

    method RememberSession(session: Session)
      modifies this`sessionByRunId, this`latestSession
      ensures Abs() == Remember(old(Abs()), session)
    {
      sessionByRunId := sessionByRunId[session.runId := session];
      latestSession := Some(session);
    }

    method FindSession(runId: Option<string>) returns (r: Option<Session>)
      ensures r == ReadSession(Abs(), runId)
    {
      hide Trim;
      if runId.Some? {
        var id := Trim(runId.value);
        if id != "" {
          return if id in sessionByRunId then Some(sessionByRunId[id]) else None;
        }
      }
      return latestSession;
    }

    /** The gate of an execute: what the call throws, if anything. */
    method CheckGate(r: Request, prior: Option<Session>, session: Session) returns (refusal: Option<Refusal>)
      ensures refusal == Gate(token, r, prior, session)
    {
      hide Provided;
      var provided := Provided(r);
      var mainnetGuardRequired := PolicyMachine.IsMainnetLike(session.network);
      if mainnetGuardRequired {
        if !r.confirmMainnet {
          return Some(MainnetBlocked);
        }
        var sessionConfirmed := prior.Some? && prior.value.runId == session.runId
                                && prior.value.network == session.network && prior.value.intent == session.intent
                                && provided.None?;
        if !sessionConfirmed && provided != Some(token(session)) {
          return Some(InvalidConfirmToken);
        }
      }
      return None;
    }

    /** The tool's execute, up to its first await. */
    method Begin(r: Request) returns (outcome: Result<Session, Refusal>)
      requires Valid() && GoodEvent(Call(r))
      modifies this
      ensures Valid() && Abs() == Step(token, old(Abs()), Call(r))
      ensures outcome.Err? <==> RefusalOf(token, old(Abs()), r).Some?
      ensures outcome.Err? ==> Some(outcome.error) == RefusalOf(token, old(Abs()), r)
      ensures outcome.Ok? ==> SessionOf(r, Prior(old(Abs()), r)) == Some(outcome.value)
    {
      hide Inv, GoodEvent, SessionOf, Gate, ReadSession, Provided, Remember;
      CallKeeps(token, Abs(), r);
      var prior := None;
      if r.mode == Execute {
        prior := FindSession(r.runId);
      }
      var resolved := SessionOf(r, prior);
      if resolved.None? {
        return Err(BadIntent);
      }
      var session := resolved.value;
      if r.mode == Analysis {
        if r.ready {
          RememberSession(session);
          deeds := deeds + [Shown(session)];
        }
        return Ok(session);
      }
      if !r.ready {
        return Err(ConfigBlocked);
      }
      if r.mode == Simulate {
        waiting := waiting + [Waiting(session, true)];
        return Ok(session);
      }
      var refusal := CheckGate(r, prior, session);
      if refusal.Some? {
        return Err(refusal.value);
      }
      deeds := deeds + [Sent(session, r.confirmMainnet, Provided(r))];
      waiting := waiting + [Waiting(session, false)];
      return Ok(session);
    }

    /** The awaited preview or transaction ends; the call runs on to its end. */
    method End(index: nat, ok: bool)
      requires Valid() && index < |waiting|
      modifies this
      ensures Valid() && Abs() == Step(token, old(Abs()), Finish(index, ok))
    {
      hide Inv, Remember;
      FinishKeeps(token, Abs(), index, ok);
      var w := waiting[index];
      waiting := waiting[..index] + waiting[index + 1..];
      if w.preview || ok {
        RememberSession(w.session);
      }
      if w.preview {
        deeds := deeds + [Shown(w.session)];
      }
    }
  }
}
