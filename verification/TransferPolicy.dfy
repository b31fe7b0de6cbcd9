/** The process-wide policy store of src/chains/evm/policy.ts, updated in place, against
    the steps of PolicyMachine. `disk` is the policy file. */
module TransferPolicy {
  import opened Outcomes
  import opened JsText
  import opened PolicyMachine

  datatype PolicyError = BadAddress | BadLimit

  /** The step of a change, by whether the recipients named parse. */
  lemma ApplyChangeCases(s: System, update: Update, action: Action, template: Option<Template>, env: Env)
    ensures Load(s, env.defaultAt).policy.Some?
    ensures LoadAudit(Load(s, env.defaultAt)).audit.Some?
    ensures
      var t := Load(s, env.defaultAt);
      var current := t.policy.value;
      var recipients := NewRecipients(update, current.allowedRecipients);
      if recipients.None? then ApplyChange(s, update, action, template, env) == t
      else
        var next := NextPolicy(update, current, recipients.value, env.updatedAt);
        ApplyChange(s, update, action, template, env)
        == Commit(LoadAudit(t), next, Entry(RecordOf(current, next, action, template, env), update), env.writeOk)
  {
    hide ReadStored, SanitizePolicy, Commit, NewRecipients, NextPolicy, RecordOf;
  }

  /** Whether an update is rejected does not depend on the recipients in force. */
  lemma RejectionIsOfTheUpdate(update: Update, current: seq<string>)
    ensures NewRecipients(update, current).None? <==> NewRecipients(update, []).None?
  {
    hide ParseAll, Dedup;
  }

  lemma EnvGood(env: Env)
    requires GoodEnv(env)
    ensures GoodEvent(GetPolicy(env.defaultAt))
  {
  }

  /** A commit overwrites the policy in memory, whatever it was. */
  lemma CommitOverPolicy(s: System, other: Option<Policy>, next: Policy, entry: Entry, writeOk: bool)
    requires s.audit.Some?
    ensures Commit(s.(policy := other), next, entry, writeOk) == Commit(s, next, entry, writeOk)
  {
    hide PushAudit;
  }

  lemma CommitSetsPolicy(s: System, next: Policy, entry: Entry, writeOk: bool)
    requires s.audit.Some?
    ensures Commit(s, next, entry, writeOk).policy == Some(next)
  {
    hide PushAudit;
  }

  /** The newest records first, at most limit of them. */
  function Newest(log: seq<Record>, limit: nat): (r: seq<Record>)
    ensures |r| <= limit && |r| <= |log| && (|r| < limit ==> |r| == |log|)
    ensures forall i | 0 <= i < |r| :: r[i] == log[|log| - 1 - i]
  {
    if log == [] || limit == 0 then [] else [log[|log| - 1]] + Newest(log[..|log| - 1], limit - 1)
  }

  class PolicyStore {
    var policy: Option<Policy>
    var audit: Option<seq<Record>>
    var disk: Option<Stored>
    ghost var base: Policy
    ghost var history: seq<Entry>
    ghost var diskHistory: seq<Entry>

    ghost function Abs(): System
      reads this
    {
      System(policy, audit, disk, base, history, diskHistory)
    }

    ghost predicate Valid()
      reads this
    {
      Inv(Abs())
    }

    constructor ()
      ensures Valid() && Abs() == INITIAL
    {
      policy, audit, disk := None, None, None;
      base, history, diskHistory := DefaultPolicy("0"), [], [];
      new;
      InitialInv();
    }

    method GetState(now: string) returns (p: Policy)
      requires Valid() && GoodEvent(GetPolicy(now))
      modifies this
      ensures Valid() && Abs() == Step(old(Abs()), GetPolicy(now)) && policy == Some(p)
    {
      LoadKeeps(Abs(), now);
      hide Inv, ReadStored, SanitizePolicy;
      if policy.Some? {
        return policy.value;
      }
      var stored := ReadStored(disk, now);
      p := if stored.Some? then SanitizePolicy(stored.value.policy, now) else DefaultPolicy(now);
      policy := Some(p);
      if audit.None? {
        audit := Some(if stored.Some? && stored.value.audit.Some? then stored.value.audit.value else []);
      }
      if stored.None? {
        base := p;
      }
    }

    method GetAuditState() returns (log: seq<Record>)
      requires Valid()
      modifies this`audit
      ensures Valid() && Abs() == Step(old(Abs()), GetAudit) && audit == Some(log)
    {
      LoadAuditKeeps(Abs());
      hide Inv, ReadStored;
      if audit.Some? {
        return audit.value;
      }
      var stored := ReadStored(disk, "now");
      log := if stored.Some? && stored.value.audit.Some? then stored.value.audit.value else [];
      audit := Some(log);
    }

    /** appendAudit, after the new policy has been put in place. */
    method AppendAudit(record: Record, next: Policy, ghost update: Update, writeOk: bool)
      requires audit.Some? && policy == Some(next)
      modifies this
      ensures Abs() == Commit(old(Abs()), next, Entry(record, update), writeOk)
    {
      var log := audit.value + [record];
      if |log| > MAX_AUDIT {
        log := log[|log| - MAX_AUDIT..];
      }
      audit := Some(log);
      history := history + [Entry(record, update)];
      if writeOk {
        disk := Some(Stored(next, Some(log)));
        diskHistory := history;
      }
    }

    /** The end of applyPolicyUpdate: the audit log is loaded, the policy replaced, the record appended. */
    method Replace(next: Policy, record: Record, ghost update: Update, writeOk: bool)
      requires Valid()
      modifies this
      ensures Abs() == Commit(LoadAudit(old(Abs())), next, Entry(record, update), writeOk) && policy == Some(next)
    {
      var log := GetAuditState();
      hide Inv, LoadAudit, Commit;
      ghost var loaded := Abs();
      policy := Some(next);
      CommitOverPolicy(loaded, Some(next), next, Entry(record, update), writeOk);
      AppendAudit(record, next, update, writeOk);
      CommitSetsPolicy(loaded, next, Entry(record, update), writeOk);
    }

    method ApplyPolicyUpdate(update: Update, action: Action, template: Option<Template>, env: Env)
      returns (r: Result<Policy, PolicyError>)
      requires Valid() && GoodEnv(env)
      modifies this
      ensures Valid() && Abs() == Step(old(Abs()), Change(update, action, template, env))
      ensures r.Ok? ==> policy == Some(r.value)
      ensures r.Err? <==> NewRecipients(update, []).None?
    {
      hide Inv, Load, LoadAudit, Commit, ApplyChange, NewRecipients, NextPolicy, RecordOf, FieldOr, GoodEnv, GoodEvent;
      EnvGood(env);
      ApplyChangeKeeps(Abs(), update, action, template, env);
      ApplyChangeCases(Abs(), update, action, template, env);
      var current := GetState(env.defaultAt);
      var recipients := NewRecipients(update, current.allowedRecipients);
      RejectionIsOfTheUpdate(update, current.allowedRecipients);
      if recipients.None? {
        return Err(BadAddress);
      }
      var next := NextPolicy(update, current, recipients.value, env.updatedAt);
      Replace(next, RecordOf(current, next, action, template, env), update, env.writeOk);
      return Ok(next);
    }

    method SetPolicy(update: Update, env: Env) returns (r: Result<Policy, PolicyError>)
      requires Valid() && GoodEnv(env)
      modifies this
      ensures Valid() && Abs() == Step(old(Abs()), Change(update, PolicyMachine.SetPolicy, None, env))
    {
      r := ApplyPolicyUpdate(update, PolicyMachine.SetPolicy, None, env);
    }

    method ApplyTemplate(template: Template, updatedBy: Field, note: Field, env: Env)
      returns (r: Result<Policy, PolicyError>)
      requires Valid() && GoodEnv(env)
      modifies this
      ensures Valid() && r.Ok?
      ensures Abs() == Step(old(Abs()), Change(TemplateUpdate(template, updatedBy, note), PolicyMachine.ApplyTemplate,
                                               Some(template), env))
    {
      if template == ProductionSafe {
        r := ApplyPolicyUpdate(Update(Some(Allowlist), Some(MainnetLike), None, false, updatedBy, note),
                               PolicyMachine.ApplyTemplate, Some(template), env);
      } else {
        r := ApplyPolicyUpdate(Update(Some(Open), Some(MainnetLike), None, false, updatedBy, note),
                               PolicyMachine.ApplyTemplate, Some(template), env);
      }
    }

    /** getEvmTransferPolicyAuditLog: the newest records first. */
    method AuditLog(limit: int) returns (r: Result<seq<Record>, PolicyError>)
      requires Valid()
      modifies this`audit
      ensures Valid() && (r.Err? <==> limit <= 0 || limit > 500)
      ensures r.Ok? ==>
        && Abs() == Step(old(Abs()), GetAudit)
        && audit.Some? && r.value == Newest(audit.value, limit)
      ensures r.Err? ==> Abs() == old(Abs())
    {
      if limit <= 0 || limit > 500 {
        return Err(BadLimit);
      }
      var log := GetAuditState();
      hide Inv, LoadAudit;
      return Ok(Newest(log, limit));
    }

    method EvaluateTransfer(network: string, toAddress: string, now: string) returns (r: Result<bool, PolicyError>)
      requires Valid() && GoodEvent(GetPolicy(now))
      modifies this
      ensures Valid() && Abs() == Step(old(Abs()), GetPolicy(now)) && policy.Some?
      ensures r == match Evaluate(policy.value, network, toAddress) case None => Err(BadAddress) case Some(b) => Ok(b)
    {
      var p := GetState(now);
      hide Inv, Load;
      var to := ParseEvmAddress(toAddress);
      if to.None? {
        return Err(BadAddress);
      }
      if p.mode == Open {
        return Ok(true);
      }
      var shouldEnforce := p.enforceOn == All || IsMainnetLike(network);
      if !shouldEnforce {
        return Ok(true);
      }
      return Ok(to.value in p.allowedRecipients);
    }

    /** The process ends and another starts on the same file. */
    method RestartProcess()
      requires Valid()
      modifies this
      ensures Valid() && Abs() == Step(old(Abs()), Restart)
    {
      RestartKeeps(Abs());
      hide Inv;
      policy, audit, history := None, None, diskHistory;
    }
  }
}
