/** The EVM transfer policy of src/chains/evm/policy.ts as a state machine: a versioned
    policy and a bounded audit log in memory, a file that may fail to be written, and
    restarts that reload the file. Clock texts and identifiers are inputs. */
module PolicyMachine {
  import opened Outcomes
  import opened Numerals
  import opened JsText

  datatype Mode = Open | Allowlist
  datatype EnforceOn = MainnetLike | All
  datatype Template = ProductionSafe | OpenDev
  datatype Action = SetPolicy | ApplyTemplate

  datatype Policy = Policy(version: int, updatedAt: string, updatedBy: Option<string>, note: Option<string>,
                           mode: Mode, enforceOn: EnforceOn, allowedRecipients: seq<string>)

  datatype Record = Record(id: string, at: string, action: Action, template: Option<Template>,
                           actor: Option<string>, note: Option<string>, before: Policy, after: Policy)

  /** A text field of an update: not given, null, or a text. */
  datatype Field = Absent | Null | Text(text: string)

  datatype Update = Update(mode: Option<Mode>, enforceOn: Option<EnforceOn>, allowedRecipients: Option<seq<string>>,
                           clearRecipients: bool, updatedBy: Field, note: Field)

  datatype Stored = Stored(policy: Policy, audit: Option<seq<Record>>)

  /** What the surroundings supply to one call. */
  datatype Env = Env(defaultAt: string, updatedAt: string, id: string, at: string, writeOk: bool)

  const MAX_AUDIT := 200

  // ---- text ----

  /** parseEvmAddress: trimmed and in lower case, None when it throws. */
  function ParseEvmAddress(value: string): Option<string> {
    var n := ToLower(Trim(value));
    if |n| == 42 && n[..2] == "0x" && LowerDigits(n[2..], Hex) then Some(n) else None
  }

  function TrimOrNull(field: string): Option<string> {
    if Trim(field) == "" then None else Some(Trim(field))
  }

  /** Parse every entry; None when one throws. */
  function ParseAll(xs: seq<string>): Option<seq<string>> {
    if xs == [] then Some([])
    else
      var init, last := ParseAll(xs[..|xs| - 1]), ParseEvmAddress(xs[|xs| - 1]);
      if init.None? || last.None? then None else Some(init.value + [last.value])
  }

  predicate IsNormalAddress(a: string) {
    ParseEvmAddress(a) == Some(a)
  }

  lemma ParsedIsNormal(value: string)
    ensures ParseEvmAddress(value).Some? ==> IsNormalAddress(ParseEvmAddress(value).value)
  {
    var n := ToLower(Trim(value));
    if ParseEvmAddress(value).Some? {
      assert n[0] == n[..2][0] == '0' && n[1] == n[..2][1] == 'x';
      assert n[41] == n[2..][39];
      assert DigitVal(n[41]) < 16;
      TrimNothing(n);
      assert forall i | 2 <= i < 42 :: n[i] == n[2..][i - 2];
      assert ToLower(n) == n;
    }
  }

  lemma {:induction false} ParseAllNormal(xs: seq<string>)
    requires ParseAll(xs).Some?
    ensures forall a :: a in ParseAll(xs).value ==> IsNormalAddress(a)
    ensures forall x :: x in xs ==> ParseEvmAddress(x).Some? && ParseEvmAddress(x).value in ParseAll(xs).value
    ensures forall a :: a in ParseAll(xs).value ==> exists x :: x in xs && ParseEvmAddress(x) == Some(a)
  {
    if xs != [] {
      var init, last := xs[..|xs| - 1], xs[|xs| - 1];
      assert xs == init + [last];
      ParsedIsNormal(last);
      hide ParseEvmAddress, IsNormalAddress;
      ParseAllNormal(init);
    }
  }

  // ---- policies ----

  function DefaultPolicy(now: string): Policy {
    Policy(1, now, None, None, Open, MainnetLike, [])
  }

  function SanitizeRecipients(xs: seq<string>): seq<string> {
    if xs == [] then []
    else
      var parsed := ParseEvmAddress(xs[|xs| - 1]);
      SanitizeRecipients(xs[..|xs| - 1]) + if Trim(xs[|xs| - 1]) != "" && parsed.Some? then [parsed.value] else []
  }

  function SanitizePolicy(p: Policy, now: string): Policy {
    p.(version := if p.version > 0 then p.version else 1,
       updatedAt := if p.updatedAt != "" then p.updatedAt else now,
       allowedRecipients := SanitizeRecipients(Dedup(p.allowedRecipients)))
  }

  predicate IsStoredPolicy(p: Policy) {
    p.version > 0 && Trim(p.updatedAt) != ""
  }

  predicate IsStoredRecord(r: Record) {
    r.id != "" && r.at != "" && IsStoredPolicy(r.before) && IsStoredPolicy(r.after)
  }

  /** readStoredState on the file's content. */
  function ReadStored(disk: Option<Stored>, now: string): Option<Stored> {
    match disk
    case None => None
    case Some(st) =>
      if IsStoredPolicy(st.policy)
         && (st.audit.Some? ==> forall i | 0 <= i < |st.audit.value| :: IsStoredRecord(st.audit.value[i]))
      then Some(Stored(SanitizePolicy(st.policy, now), st.audit))
      else None
  }

  /** The recipients an update puts in force, given those in force; None when it throws. */
  function NewRecipients(update: Update, current: seq<string>): Option<seq<string>> {
    if update.clearRecipients then Some([])
    else if update.allowedRecipients.Some? then
      var parsed := ParseAll(update.allowedRecipients.value);
      if parsed.None? then None else Some(Dedup(parsed.value))
    else Some(Dedup(current))
  }

  function FieldOr(field: Field, current: Option<string>): Option<string> {
    match field
    case Absent => current
    case Null => None
    case Text(t) => TrimOrNull(t)
  }

  function NextPolicy(update: Update, current: Policy, recipients: seq<string>, now: string): Policy {
    Policy(current.version + 1, now, FieldOr(update.updatedBy, current.updatedBy), FieldOr(update.note, current.note),
           if update.mode.Some? then update.mode.value else current.mode,
           if update.enforceOn.Some? then update.enforceOn.value else current.enforceOn,
           recipients)
  }

  function TemplateUpdate(template: Template, updatedBy: Field, note: Field): Update {
    Update(Some(if template.ProductionSafe? then Allowlist else Open), Some(MainnetLike), None, false, updatedBy, note)
  }

  // ---- the system ----

  /** A change of policy: its audit record and the update that made it. */
  datatype Entry = Entry(record: Record, update: Update)

  /** `policy`, `audit` and `disk` are the code's state. The rest is bookkeeping: `base`
      is the policy before the first surviving change, `history` the surviving changes
      of the process, `diskHistory` those the file tells of. */
  datatype System = System(policy: Option<Policy>, audit: Option<seq<Record>>, disk: Option<Stored>,
                           base: Policy, history: seq<Entry>, diskHistory: seq<Entry>)

  const INITIAL := System(None, None, None, DefaultPolicy("0"), [], [])

  datatype Event =
    | GetPolicy(now: string)
    | GetAudit
    | Change(update: Update, action: Action, template: Option<Template>, env: Env)
    | Restart

  /** getState: load the policy, and with it the audit log, when not in memory. */
  function Load(s: System, now: string): System {
    if s.policy.Some? then s
    else
      var stored := ReadStored(s.disk, now);
      var policy := if stored.Some? then SanitizePolicy(stored.value.policy, now) else DefaultPolicy(now);
      var audit := if s.audit.Some? then s.audit.value
                   else if stored.Some? && stored.value.audit.Some? then stored.value.audit.value else [];
      s.(policy := Some(policy), audit := Some(audit), base := if stored.Some? then s.base else policy)
  }

  /** getAuditState; a read error of the file reads as an empty log. */
  function LoadAudit(s: System): System {
    if s.audit.Some? then s
    else
      var stored := ReadStored(s.disk, "now");
      s.(audit := Some(if stored.Some? && stored.value.audit.Some? then stored.value.audit.value else []))
  }

  /** Push a record, then drop the oldest over the limit. */
  function PushAudit(audit: seq<Record>, r: Record): seq<Record> {
    var pushed := audit + [r];
    if |pushed| > MAX_AUDIT then pushed[|pushed| - MAX_AUDIT..] else pushed
  }

  function RecordOf(before: Policy, after: Policy, action: Action, template: Option<Template>, env: Env): Record {
    Record(env.id, env.at, action, template, after.updatedBy, after.note, before, after)
  }

  function Commit(s: System, next: Policy, entry: Entry, writeOk: bool): System
    requires s.audit.Some?
  {
    var audit := PushAudit(s.audit.value, entry.record);
    var t := s.(policy := Some(next), audit := Some(audit), history := s.history + [entry]);
    if writeOk then t.(disk := Some(Stored(next, Some(audit))), diskHistory := t.history) else t
  }

  function ApplyChange(s: System, update: Update, action: Action, template: Option<Template>, env: Env): System {
    var t := Load(s, env.defaultAt);
    var current := t.policy.value;
    var recipients := NewRecipients(update, current.allowedRecipients);
    if recipients.None? then t
    else
      var next := NextPolicy(update, current, recipients.value, env.updatedAt);
      Commit(LoadAudit(t), next, Entry(RecordOf(current, next, action, template, env), update), env.writeOk)
  }

  function Step(s: System, e: Event): System {
    match e
    case GetPolicy(now) => Load(s, now)
    case GetAudit => LoadAudit(s)
    case Change(update, action, template, env) => ApplyChange(s, update, action, template, env)
    case Restart => s.(policy := None, audit := None, history := s.diskHistory)
  }

  function Run(s: System, es: seq<Event>): System
    decreases |es|
  {
    if es == [] then s else Run(Step(s, es[0]), es[1..])
  }

  predicate GoodEnv(env: Env) {
    Trim(env.defaultAt) != "" && Trim(env.updatedAt) != "" && env.id != "" && env.at != ""
  }

  /** The clock and the identifier generator give texts that are not blank. */
  predicate GoodEvent(e: Event) {
    && (e.GetPolicy? ==> Trim(e.now) != "")
    && (e.Change? ==> GoodEnv(e.env))
  }

  // ---- the invariant ----

  function Current(base: Policy, history: seq<Entry>): Policy {
    if history == [] then base else history[|history| - 1].record.after
  }

  function Records(history: seq<Entry>): (rs: seq<Record>)
    ensures |rs| == |history| && forall i | 0 <= i < |rs| :: rs[i] == history[i].record
  {
    seq(|history|, i requires 0 <= i < |history| => history[i].record)
  }

  function Window(rs: seq<Record>): seq<Record> {
    if |rs| <= MAX_AUDIT then rs else rs[|rs| - MAX_AUDIT..]
  }

  /** The recipients set by the last change that cleared or named any. */
  function LastNamed(history: seq<Entry>): seq<string> {
    if history == [] then []
    else
      var init, u := history[..|history| - 1], history[|history| - 1].update;
      if u.clearRecipients then []
      else if u.allowedRecipients.Some? then
        var parsed := ParseAll(u.allowedRecipients.value);
        if parsed.Some? then Dedup(parsed.value) else LastNamed(init)
      else LastNamed(init)
  }

  predicate NormalPolicy(p: Policy) {
    && IsStoredPolicy(p) && NoDuplicates(p.allowedRecipients)
    && forall i | 0 <= i < |p.allowedRecipients| :: IsNormalAddress(p.allowedRecipients[i])
  }

  /** What an update says of a text field, if anything: a blank text clears it like null. */
  function FieldGiven(field: Field): Option<Option<string>> {
    match field
    case Absent => None
    case Null => Some(None)
    case Text(t) => Some(if Trim(t) == "" then None else Some(Trim(t)))
  }

  predicate SetOrKept<T(==)>(given: Option<T>, before: T, after: T) {
    after == if given.Some? then given.value else before
  }

  /** What the update gives is set, everything else is kept. */
  predicate Applies(u: Update, before: Policy, after: Policy) {
    && SetOrKept(u.mode, before.mode, after.mode) && SetOrKept(u.enforceOn, before.enforceOn, after.enforceOn)
    && SetOrKept(FieldGiven(u.updatedBy), before.updatedBy, after.updatedBy)
    && SetOrKept(FieldGiven(u.note), before.note, after.note)
  }

  /** The change e follows on the history: its record starts from the policy then in
      force, raises the version by one and carries the recipients last named. */
  predicate Follows(base: Policy, history: seq<Entry>, e: Entry) {
    && e.record.before == Current(base, history)
    && e.record.after.version == e.record.before.version + 1
    && NormalPolicy(e.record.after) && IsStoredRecord(e.record)
    && NewRecipients(e.update, []).Some?
    && e.record.after.allowedRecipients == LastNamed(history + [e])
    && Applies(e.update, e.record.before, e.record.after)
    && e.record.actor == e.record.after.updatedBy && e.record.note == e.record.after.note
  }

  predicate LinkedFrom(base: Policy, history: seq<Entry>) {
    if history == [] then NormalPolicy(base) && base == DefaultPolicy(base.updatedAt)
    else
      var init, last := history[..|history| - 1], history[|history| - 1];
      LinkedFrom(base, init) && Follows(base, init, last)
  }

  predicate Inv(s: System) {
    && (s.policy.Some? || s.disk.Some? ==> LinkedFrom(s.base, s.history))
    && (s.policy.Some? ==> s.policy.value == Current(s.base, s.history) && s.audit.Some?)
    && (s.audit.Some? ==> s.audit.value == Window(Records(s.history)))
    && (s.disk.Some? ==> s.disk.value == Stored(Current(s.base, s.diskHistory), Some(Window(Records(s.diskHistory)))))
    && s.diskHistory <= s.history
    && (s.policy.None? ==> s.history == s.diskHistory)
    && (s.disk.None? ==> s.diskHistory == [])
  }

  lemma InitialInv()
    ensures Inv(INITIAL)
  {
    assert Records([]) == [];
  }

  // ---- reloading with sanitising changes nothing ----

  lemma {:induction false} SanitizeRecipientsSame(xs: seq<string>)
    requires forall i | 0 <= i < |xs| :: IsNormalAddress(xs[i])
    ensures SanitizeRecipients(xs) == xs
  {
    hide ParseEvmAddress, IsNormalAddress, SanitizeRecipients;
    if xs == [] {
      SanitizeNone();
    } else {
      SanitizeRecipientsSame(xs[..|xs| - 1]);
      SanitizeLast(xs);
      assert xs == xs[..|xs| - 1] + [xs[|xs| - 1]];
    }
  }

  lemma SanitizeNone()
    ensures SanitizeRecipients([]) == []
  {
  }

  lemma SanitizeLast(xs: seq<string>)
    requires xs != [] && IsNormalAddress(xs[|xs| - 1])
    ensures SanitizeRecipients(xs) == SanitizeRecipients(xs[..|xs| - 1]) + [xs[|xs| - 1]]
  {
    hide ParseEvmAddress, IsNormalAddress, Trim;
    NormalNotBlank(xs[|xs| - 1]);
  }

  lemma NormalNotBlank(x: string)
    requires IsNormalAddress(x)
    ensures Trim(x) != "" && ParseEvmAddress(x) == Some(x)
  {
  }

  lemma SanitizeSame(p: Policy, now: string)
    requires NormalPolicy(p)
    ensures SanitizePolicy(p, now) == p
  {
    DedupSame(p.allowedRecipients);
    SanitizeRecipientsSame(p.allowedRecipients);
    assert Trim("") == "";
  }

  lemma {:induction false} PrefixLinked(base: Policy, history: seq<Entry>, prefix: seq<Entry>)
    requires LinkedFrom(base, history) && prefix <= history
    ensures LinkedFrom(base, prefix)
    decreases |history|
  {
    if prefix != history {
      assert prefix <= history[..|history| - 1];
      PrefixLinked(base, history[..|history| - 1], prefix);
    }
  }

  lemma CurrentNormal(base: Policy, history: seq<Entry>)
    requires LinkedFrom(base, history)
    ensures NormalPolicy(Current(base, history)) && Current(base, history).allowedRecipients == LastNamed(history)
  {
    hide NormalPolicy, LastNamed, IsStoredRecord, NewRecipients, Applies;
    if history == [] {
      NoneNamed();
    } else {
      var init, last := history[..|history| - 1], history[|history| - 1];
      assert Follows(base, init, last) && history == init + [last];
    }
  }

  lemma NoneNamed()
    ensures LastNamed([]) == []
  {
  }

  /** Inside a linked history records are well-formed, consecutive ones meet, and versions rise by one. */
  lemma {:induction false} LinksInside(base: Policy, history: seq<Entry>)
    requires LinkedFrom(base, history)
    ensures forall i | 0 <= i < |history| ::
              IsStoredRecord(history[i].record)
              && history[i].record.after.version == history[i].record.before.version + 1
    ensures forall i | 0 < i < |history| :: history[i].record.before == history[i - 1].record.after
  {
    hide NormalPolicy, IsStoredRecord, LastNamed, NewRecipients;
    if history != [] {
      var init, last := history[..|history| - 1], history[|history| - 1];
      LinksInside(base, init);
      assert Follows(base, init, last);
      forall i | 0 < i < |history|
        ensures history[i].record.before == history[i - 1].record.after
      {
        if i < |init| {
          assert init[i] == history[i] && init[i - 1] == history[i - 1];
        } else {
          assert Current(base, init) == history[i - 1].record.after;
        }
      }
    }
  }

  lemma {:induction false} AcceptedUpdates(base: Policy, history: seq<Entry>)
    requires LinkedFrom(base, history)
    ensures forall i | 0 <= i < |history| :: NewRecipients(history[i].update, []).Some?
  {
    hide NormalPolicy, IsStoredRecord, LastNamed, NewRecipients;
    if history != [] {
      AcceptedUpdates(base, history[..|history| - 1]);
    }
  }

  lemma WindowElements(rs: seq<Record>)
    ensures forall i | 0 <= i < |Window(rs)| :: Window(rs)[i] in rs
  {
  }

  /** What the file holds is read back unchanged. */
  lemma ReadBack(s: System, now: string)
    requires Inv(s) && s.disk.Some?
    ensures ReadStored(s.disk, now) == s.disk
    ensures SanitizePolicy(s.disk.value.policy, now) == s.disk.value.policy
  {
    PrefixLinked(s.base, s.history, s.diskHistory);
    CurrentNormal(s.base, s.diskHistory);
    LinksInside(s.base, s.diskHistory);
    WindowElements(Records(s.diskHistory));
    hide LinkedFrom, LastNamed, Window, Records, IsStoredRecord;
    SanitizeSame(s.disk.value.policy, now);
  }

  // ---- every step keeps the invariant ----

  lemma LoadKeeps(s: System, now: string)
    requires Inv(s) && Trim(now) != ""
    ensures Inv(Load(s, now)) && Load(s, now).policy.Some?
    ensures Load(s, now).disk == s.disk && Load(s, now).history == s.history && Load(s, now).diskHistory == s.diskHistory
  {
    if s.policy.None? {
      if s.disk.Some? {
        ReadBack(s, now);
        hide ReadStored, SanitizePolicy, LinkedFrom;
      } else {
        assert Records([]) == [];
      }
    }
  }

  lemma LoadAuditKeeps(s: System)
    requires Inv(s)
    ensures Inv(LoadAudit(s)) && LoadAudit(s).audit.Some?
    ensures LoadAudit(s) == s.(audit := LoadAudit(s).audit)
  {
    if s.audit.None? && s.disk.Some? {
      ReadBack(s, "now");
    }
    hide ReadStored, LinkedFrom;
    assert Records([]) == [];
  }

  lemma PushWindow(history: seq<Entry>, e: Entry)
    ensures PushAudit(Window(Records(history)), e.record) == Window(Records(history + [e]))
  {
    assert Records(history + [e]) == Records(history) + [e.record];
    hide Records;
    PushOntoWindow(Records(history), e.record);
  }

  lemma PushOntoWindow(rs: seq<Record>, r: Record)
    ensures PushAudit(Window(rs), r) == Window(rs + [r])
  {
  }

  lemma NextNormal(update: Update, current: Policy, now: string)
    requires NormalPolicy(current) && Trim(now) != "" && NewRecipients(update, current.allowedRecipients).Some?
    ensures NormalPolicy(NextPolicy(update, current, NewRecipients(update, current.allowedRecipients).value, now))
  {
    DedupSame(current.allowedRecipients);
    if update.allowedRecipients.Some? && ParseAll(update.allowedRecipients.value).Some? {
      ParseAllNormal(update.allowedRecipients.value);
      DedupSame(ParseAll(update.allowedRecipients.value).value);
    }
    hide ParseAll, IsNormalAddress, FieldOr;
  }

  lemma {:induction false} LastNamedStep(history: seq<Entry>, e: Entry, current: seq<string>)
    requires NoDuplicates(current) && current == LastNamed(history) && NewRecipients(e.update, current).Some?
    ensures LastNamed(history + [e]) == NewRecipients(e.update, current).value
  {
    assert (history + [e])[..|history|] == history;
    DedupSame(current);
  }

  lemma LinkOne(base: Policy, history: seq<Entry>, e: Entry)
    requires LinkedFrom(base, history) && Follows(base, history, e)
    ensures LinkedFrom(base, history + [e])
  {
    hide Follows;
    assert (history + [e])[..|history|] == history;
  }

  lemma CommitKeeps(s: System, next: Policy, entry: Entry, writeOk: bool)
    requires Inv(s) && s.policy.Some? && LinkedFrom(s.base, s.history + [entry]) && entry.record.after == next
    ensures Inv(Commit(s, next, entry, writeOk))
  {
    PushWindow(s.history, entry);
    hide LinkedFrom, Window, Records, PushAudit;
    assert Current(s.base, s.history + [entry]) == next;
    assert s.diskHistory <= s.history + [entry];
  }

  lemma ApplyChangeKeeps(s: System, update: Update, action: Action, template: Option<Template>, env: Env)
    requires Inv(s) && GoodEnv(env)
    ensures Inv(ApplyChange(s, update, action, template, env))
  {
    LoadKeeps(s, env.defaultAt);
    var t := Load(s, env.defaultAt);
    var current := t.policy.value;
    var recipients := NewRecipients(update, current.allowedRecipients);
    if recipients.Some? {
      LoadAuditKeeps(t);
      var next := NextPolicy(update, current, recipients.value, env.updatedAt);
      var entry := Entry(RecordOf(current, next, action, template, env), update);
      assert LinkedFrom(t.base, t.history);
      EntryLinks(t.base, t.history, update, action, template, env);
      hide Load, LoadAudit, Commit, Inv, LinkedFrom, NextPolicy, NewRecipients, RecordOf;
      CommitKeeps(LoadAudit(t), next, entry, env.writeOk);
    }
  }

  lemma EntryLinks(base: Policy, history: seq<Entry>, update: Update, action: Action, template: Option<Template>, env: Env)
    requires LinkedFrom(base, history) && GoodEnv(env)
    requires NewRecipients(update, Current(base, history).allowedRecipients).Some?
    ensures var current := Current(base, history);
      var next := NextPolicy(update, current, NewRecipients(update, current.allowedRecipients).value, env.updatedAt);
      LinkedFrom(base, history + [Entry(RecordOf(current, next, action, template, env), update)])
  {
    var current := Current(base, history);
    CurrentNormal(base, history);
    NextNormal(update, current, env.updatedAt);
    var next := NextPolicy(update, current, NewRecipients(update, current.allowedRecipients).value, env.updatedAt);
    var entry := Entry(RecordOf(current, next, action, template, env), update);
    LastNamedStep(history, entry, current.allowedRecipients);
    assert NewRecipients(update, []).Some?;
    hide LinkedFrom, NewRecipients, LastNamed, IsNormalAddress, FieldOr;
    LinkOne(base, history, entry);
  }

  lemma RestartKeeps(s: System)
    requires Inv(s)
    ensures Inv(Step(s, Restart))
  {
    hide LinkedFrom, Window, Records, Current;
    if s.policy.Some? || s.disk.Some? {
      PrefixLinked(s.base, s.history, s.diskHistory);
    }
  }

  lemma StepKeeps(s: System, e: Event)
    requires Inv(s) && GoodEvent(e)
    ensures Inv(Step(s, e))
  {
    hide Inv, Load, LoadAudit, ApplyChange;
    match e
    case GetPolicy(now) => LoadKeeps(s, now);
    case GetAudit => LoadAuditKeeps(s);
    case Change(update, action, template, env) => ApplyChangeKeeps(s, update, action, template, env);
    case Restart => RestartKeeps(s);
  }

  lemma {:induction false} RunKeeps(s: System, es: seq<Event>)
    requires Inv(s) && forall i | 0 <= i < |es| :: GoodEvent(es[i])
    ensures Inv(Run(s, es))
    decreases |es|
  {
    if es != [] {
      StepKeeps(s, es[0]);
      hide Step, Inv, GoodEvent;
      RunKeeps(Step(s, es[0]), es[1..]);
    }
  }

  // ---- what it says over whole runs ----

  ghost predicate Reachable(s: System) {
    exists es :: (forall i | 0 <= i < |es| :: GoodEvent(es[i])) && s == Run(INITIAL, es)
  }

  lemma ReachableInv(s: System)
    requires Reachable(s)
    ensures Inv(s)
  {
    var es :| (forall i | 0 <= i < |es| :: GoodEvent(es[i])) && s == Run(INITIAL, es);
    InitialInv();
    hide Run, Inv, GoodEvent;
    RunKeeps(INITIAL, es);
  }

  /** Consecutive records meet and versions rise by exactly one. */
  predicate LinkedRecords(all: seq<Record>) {
    && (forall i | 0 < i < |all| :: all[i].before == all[i - 1].after)
    && (forall i | 0 <= i < |all| :: all[i].after.version == all[i].before.version + 1)
  }

  /** In every reachable state with a policy loaded, the audit log is exactly the last 200
      records of the surviving history, consecutive records link, versions rise by one, and
      the last `after` is the policy in force. */
  lemma AuditIsLinkedWindow(s: System)
    requires Reachable(s) && s.policy.Some?
    ensures s.audit.Some? && LinkedRecords(Records(s.history))
    ensures var log, all := s.audit.value, Records(s.history);
      |log| == (if |all| < 200 then |all| else 200) && log == all[|all| - |log|..]
    ensures var all := Records(s.history);
      if all != [] then all[|all| - 1].after == s.policy.value
      else s.policy.value == s.base && s.base.allowedRecipients == []
  {
    hide *;
    ReachableInv(s);
    InvParts(s);
    BaseHasNone(s.base, s.history);
    RecordsLinked(s.base, s.history);
    WindowShape(Records(s.history));
  }

  lemma InvParts(s: System)
    requires Inv(s) && s.policy.Some?
    ensures LinkedFrom(s.base, s.history) && s.policy.value == Current(s.base, s.history)
    ensures s.audit == Some(Window(Records(s.history)))
  {
    hide LinkedFrom, Window, Records, Current;
  }

  lemma {:induction false} BaseHasNone(base: Policy, history: seq<Entry>)
    requires LinkedFrom(base, history)
    ensures base.allowedRecipients == []
  {
    if history != [] {
      BaseHasNone(base, history[..|history| - 1]);
    }
  }

  lemma WindowShape(rs: seq<Record>)
    ensures |Window(rs)| == (if |rs| < 200 then |rs| else 200) && Window(rs) == rs[|rs| - |Window(rs)|..]
  {
  }

  lemma RecordsLinked(base: Policy, history: seq<Entry>)
    requires LinkedFrom(base, history)
    ensures LinkedRecords(Records(history))
    ensures var all := Records(history);
      Current(base, history) == if all == [] then base else all[|all| - 1].after
  {
    hide LinkedFrom, IsStoredRecord;
    LinksInside(base, history);
  }

  /** The file, when there is one, always holds a past policy with its audit window, and
      restarting and loading gives exactly that pair back, whatever writes have failed. */
  lemma ReloadIsExact(s: System, now: string)
    requires Reachable(s) && Trim(now) != ""
    ensures s.disk.Some? ==>
      && s.diskHistory <= s.history
      && s.disk.value == Stored(Current(s.base, s.diskHistory), Some(Window(Records(s.diskHistory))))
    ensures var t := Load(Step(s, Restart), now);
      if s.disk.Some? then t.policy == Some(s.disk.value.policy) && t.audit == s.disk.value.audit && t.disk == s.disk
      else t.policy == Some(DefaultPolicy(now)) && t.audit == Some([]) && t.history == []
  {
    hide Reachable, ReadStored, SanitizePolicy, LinkedFrom, Window, Records, Current;
    ReachableInv(s);
    RestartKeeps(s);
    if s.disk.Some? {
      ReadBack(Step(s, Restart), now);
    } else {
      NothingStored(now);
    }
  }

  lemma NothingStored(now: string)
    ensures ReadStored(None, now) == None
  {
  }

  /** A successful write makes the file agree with memory. */
  lemma WriteCatchesUp(s: System, update: Update, action: Action, template: Option<Template>, env: Env)
    requires Inv(s) && GoodEnv(env) && env.writeOk
    requires NewRecipients(update, Load(s, env.defaultAt).policy.value.allowedRecipients).Some?
    ensures var t := ApplyChange(s, update, action, template, env);
      && t.disk == Some(Stored(t.policy.value, t.audit)) && t.diskHistory == t.history
      && |t.history| == |s.history| + 1 && t.policy.value.version == Load(s, env.defaultAt).policy.value.version + 1
  {
    LoadKeeps(s, env.defaultAt);
    LoadAuditKeeps(Load(s, env.defaultAt));
    hide Load, LoadAudit, NewRecipients, PushAudit, Inv;
  }

  /** A rejected change leaves exactly what merely reading the policy leaves; when the
      policy is loaded, nothing changes at all. It is rejected exactly when recipients are
      named, not cleared, and one of them is no address. */
  lemma RejectedChangesNothing(s: System, update: Update, action: Action, template: Option<Template>, env: Env)
    ensures var current := Load(s, env.defaultAt).policy.value;
      var rejected := NewRecipients(update, current.allowedRecipients).None?;
      && (rejected ==> ApplyChange(s, update, action, template, env) == Load(s, env.defaultAt))
      && (rejected && s.policy.Some? ==> ApplyChange(s, update, action, template, env) == s)
      && (rejected <==>
            (!update.clearRecipients && update.allowedRecipients.Some?
             && exists x :: x in update.allowedRecipients.value && ParseEvmAddress(x).None?))
  {
    if update.allowedRecipients.Some? {
      ParseAllFails(update.allowedRecipients.value);
    }
    hide ParseAll, ReadStored, SanitizePolicy;
  }

  lemma {:induction false} ParseAllFails(xs: seq<string>)
    ensures ParseAll(xs).None? <==> exists x :: x in xs && ParseEvmAddress(x).None?
  {
    if xs != [] {
      hide ParseEvmAddress;
      ParseAllFails(xs[..|xs| - 1]);
      assert xs == xs[..|xs| - 1] + [xs[|xs| - 1]];
    }
  }

  // ---- recipients ----

  /** The allowlist in force is the one set by the last surviving change that cleared or
      named recipients; a template never alters it. */
  lemma RecipientsComeFromLastNaming(s: System, template: Template, updatedBy: Field, note: Field, env: Env)
    requires Reachable(s) && s.policy.Some? && GoodEnv(env)
    ensures s.policy.value.allowedRecipients == LastNamed(s.history)
    ensures var t := ApplyChange(s, TemplateUpdate(template, updatedBy, note), ApplyTemplate, Some(template), env);
      t.policy.Some? && t.policy.value.allowedRecipients == s.policy.value.allowedRecipients
      && t.policy.value.mode == (if template.ProductionSafe? then Allowlist else Open)
      && t.policy.value.enforceOn == MainnetLike
  {
    ReachableInv(s);
    CurrentNormal(s.base, s.history);
    DedupSame(s.policy.value.allowedRecipients);
    hide LinkedFrom, Window, Records, Reachable, LastNamed;
  }

  function IsMainnetLike(network: string): bool {
    network != "sepolia"
  }

  /** evaluateEvmTransferPolicy on a loaded policy; None when the address is malformed. */
  function Evaluate(policy: Policy, network: string, toAddress: string): Option<bool> {
    var to := ParseEvmAddress(toAddress);
    if to.None? then None
    else if policy.mode == Open then Some(true)
    else if !(policy.enforceOn == All || IsMainnetLike(network)) then Some(true)
    else Some(to.value in policy.allowedRecipients)
  }

  /** An address was named by the change, up to case and surrounding white space. */
  ghost predicate Names(u: Update, toAddress: string) {
    !u.clearRecipients && u.allowedRecipients.Some?
    && exists x :: x in u.allowedRecipients.value && ParseEvmAddress(x) == ParseEvmAddress(toAddress)
  }

  predicate Touches(u: Update) {
    u.clearRecipients || u.allowedRecipients.Some?
  }

  /** Change i named the address and no later change touched the recipients. */
  ghost predicate NamedLast(history: seq<Entry>, i: nat, a: string) {
    i < |history| && Names(history[i].update, a) && forall j | i < j < |history| :: !Touches(history[j].update)
  }

  /** An address is on the list in force exactly when the last change that touched the
      recipients named it. */
  lemma {:induction false} LastNamedExactly(history: seq<Entry>, a: string)
    requires ParseEvmAddress(a).Some?
    requires forall i | 0 <= i < |history| :: NewRecipients(history[i].update, []).Some?
    ensures ParseEvmAddress(a).value in LastNamed(history) <==> exists i :: NamedLast(history, i, a)
  {
    if history != [] {
      var init, u := history[..|history| - 1], history[|history| - 1].update;
      if Touches(u) {
        TouchedLast(history, a);
        NamesExactly(u, a);
        hide ParseEvmAddress, ParseAll, Names;
      } else {
        hide ParseEvmAddress, ParseAll, Names;
        LastNamedExactly(init, a);
        UntouchedLast(history, a);
      }
    }
  }

  lemma NamesExactly(u: Update, a: string)
    requires Touches(u) && NewRecipients(u, []).Some? && ParseEvmAddress(a).Some?
    ensures ParseEvmAddress(a).value in NewRecipients(u, []).value <==> Names(u, a)
  {
    if !u.clearRecipients {
      ParseAllNormal(u.allowedRecipients.value);
      DedupSame(ParseAll(u.allowedRecipients.value).value);
    }
    hide ParseEvmAddress, ParseAll, Dedup;
  }

  lemma TouchedLast(history: seq<Entry>, a: string)
    requires history != [] && Touches(history[|history| - 1].update)
    ensures (exists i :: NamedLast(history, i, a)) <==> Names(history[|history| - 1].update, a)
  {
    hide Names;
    if Names(history[|history| - 1].update, a) {
      assert NamedLast(history, |history| - 1, a);
    }
  }

  lemma UntouchedLast(history: seq<Entry>, a: string)
    requires history != [] && !Touches(history[|history| - 1].update)
    ensures var init := history[..|history| - 1];
      (exists i :: NamedLast(history, i, a)) <==> (exists i :: NamedLast(init, i, a))
  {
    var init := history[..|history| - 1];
    assert !Names(history[|history| - 1].update, a);
    hide Names;
    if i :| NamedLast(history, i, a) { assert NamedLast(init, i, a); }
    if i :| NamedLast(init, i, a) { assert NamedLast(history, i, a); }
  }

  /** Checks that are enforced admit exactly the addresses named last; the others admit
      every well-formed address. */
  lemma EnforcedAdmitsExactlyNamed(s: System, network: string, toAddress: string)
    requires Reachable(s) && s.policy.Some?
    ensures var p := s.policy.value;
      match Evaluate(p, network, toAddress)
      case None => ParseEvmAddress(toAddress).None?
      case Some(allowed) =>
        && ParseEvmAddress(toAddress).Some?
        && (allowed <==>
              (p.mode == Open || (p.enforceOn == MainnetLike && network == "sepolia")
               || exists i :: NamedLast(s.history, i, toAddress)))
  {
    hide *;
    ReachableInv(s);
    InvParts(s);
    CurrentNormal(s.base, s.history);
    AcceptedUpdates(s.base, s.history);
    EvaluateCases(s.policy.value, network, toAddress);
    if ParseEvmAddress(toAddress).Some? {
      LastNamedExactly(s.history, toAddress);
    }
  }

  lemma EvaluateCases(p: Policy, network: string, toAddress: string)
    ensures match Evaluate(p, network, toAddress)
      case None => ParseEvmAddress(toAddress).None?
      case Some(allowed) =>
        && ParseEvmAddress(toAddress).Some?
        && (allowed <==>
              (p.mode == Open || (p.enforceOn == MainnetLike && network == "sepolia")
               || ParseEvmAddress(toAddress).value in p.allowedRecipients))
  {
    hide ParseEvmAddress;
  }

  // ---- the other fields in force ----

  /** The value was given last, or nothing was given and it is the one to begin with. */
  predicate GivenLast<T(==)>(given: seq<Option<T>>, first: T, v: T) {
    || (exists i | 0 <= i < |given| :: given[i] == Some(v) && forall j | i < j < |given| :: given[j] == None)
    || (v == first && forall i | 0 <= i < |given| :: given[i] == None)
  }

  lemma GivenLastStep<T>(given: seq<Option<T>>, g: Option<T>, first: T, before: T, after: T)
    requires GivenLast(given, first, before) && SetOrKept(g, before, after)
    ensures GivenLast(given + [g], first, after)
  {
    var more := given + [g];
    assert forall i | 0 <= i < |given| :: more[i] == given[i];
    if g.Some? {
      assert more[|given|] == Some(after);
    } else if i :| 0 <= i < |given| && given[i] == Some(before) && forall j | i < j < |given| :: given[j] == None {
      assert more[i] == Some(after);
    }
  }

  lemma GivenLastUnique<T>(given: seq<Option<T>>, first: T, v: T, w: T)
    requires GivenLast(given, first, v) && GivenLast(given, first, w)
    ensures v == w
  {
  }

  function ModesGiven(history: seq<Entry>): seq<Option<Mode>> {
    seq(|history|, i requires 0 <= i < |history| => history[i].update.mode)
  }

  function EnforceOnsGiven(history: seq<Entry>): seq<Option<EnforceOn>> {
    seq(|history|, i requires 0 <= i < |history| => history[i].update.enforceOn)
  }

  function UpdatersGiven(history: seq<Entry>): seq<Option<Option<string>>> {
    seq(|history|, i requires 0 <= i < |history| => FieldGiven(history[i].update.updatedBy))
  }

  function NotesGiven(history: seq<Entry>): seq<Option<Option<string>>> {
    seq(|history|, i requires 0 <= i < |history| => FieldGiven(history[i].update.note))
  }

  /** The fields of the policy follow from the updates alone. */
  predicate FieldsFromHistory(history: seq<Entry>, p: Policy) {
    && GivenLast(ModesGiven(history), Open, p.mode) && GivenLast(EnforceOnsGiven(history), MainnetLike, p.enforceOn)
    && GivenLast(UpdatersGiven(history), None, p.updatedBy) && GivenLast(NotesGiven(history), None, p.note)
    && p.version == 1 + |history|
  }

  lemma FieldsStep(history: seq<Entry>, e: Entry)
    requires FieldsFromHistory(history, e.record.before) && Applies(e.update, e.record.before, e.record.after)
    requires e.record.after.version == e.record.before.version + 1
    ensures FieldsFromHistory(history + [e], e.record.after)
  {
    assert ModesGiven(history + [e]) == ModesGiven(history) + [e.update.mode];
    assert EnforceOnsGiven(history + [e]) == EnforceOnsGiven(history) + [e.update.enforceOn];
    assert UpdatersGiven(history + [e]) == UpdatersGiven(history) + [FieldGiven(e.update.updatedBy)];
    assert NotesGiven(history + [e]) == NotesGiven(history) + [FieldGiven(e.update.note)];
    hide GivenLast, SetOrKept, FieldGiven, ModesGiven, EnforceOnsGiven, UpdatersGiven, NotesGiven;
    var before, after := e.record.before, e.record.after;
    GivenLastStep(ModesGiven(history), e.update.mode, Open, before.mode, after.mode);
    GivenLastStep(EnforceOnsGiven(history), e.update.enforceOn, MainnetLike, before.enforceOn, after.enforceOn);
    GivenLastStep(UpdatersGiven(history), FieldGiven(e.update.updatedBy), None, before.updatedBy, after.updatedBy);
    GivenLastStep(NotesGiven(history), FieldGiven(e.update.note), None, before.note, after.note);
  }

  lemma {:induction false} LinkedFields(base: Policy, history: seq<Entry>)
    requires LinkedFrom(base, history)
    ensures FieldsFromHistory(history, Current(base, history))
  {
    if history == [] {
      assert base == DefaultPolicy(base.updatedAt);
      hide NormalPolicy;
    } else {
      var init, last := history[..|history| - 1], history[|history| - 1];
      assert Follows(base, init, last);
      assert history == init + [last];
      hide FieldsFromHistory, Applies, NormalPolicy, IsStoredRecord, NewRecipients, LastNamed;
      LinkedFields(base, init);
      FieldsStep(init, last);
    }
  }

  /** In every reachable state the mode in force is the one given by the last surviving change
      that gave one, else Open; so with the networks enforced on, else the mainnet-like ones,
      and with the updater and the note, else none. The version counts the changes. */
  lemma FieldsComeFromLastGiving(s: System)
    requires Reachable(s) && s.policy.Some?
    ensures FieldsFromHistory(s.history, s.policy.value)
  {
    hide *;
    ReachableInv(s);
    InvParts(s);
    LinkedFields(s.base, s.history);
  }

  /** What a transfer check admits, from the surviving updates alone: every well-formed
      address while the mode last given is Open, or off the networks last enforced on; else
      exactly the addresses that the last change touching the recipients named. */
  lemma CheckFromHistory(s: System, network: string, toAddress: string)
    requires Reachable(s) && s.policy.Some?
    ensures match Evaluate(s.policy.value, network, toAddress)
      case None => ParseEvmAddress(toAddress).None?
      case Some(allowed) =>
        && ParseEvmAddress(toAddress).Some?
        && (allowed <==>
              || GivenLast(ModesGiven(s.history), Open, Open)
              || (GivenLast(EnforceOnsGiven(s.history), MainnetLike, MainnetLike) && network == "sepolia")
              || exists i :: NamedLast(s.history, i, toAddress))
  {
    EnforcedAdmitsExactlyNamed(s, network, toAddress);
    FieldsComeFromLastGiving(s);
    var p := s.policy.value;
    assert GivenLast(ModesGiven(s.history), Open, p.mode) && GivenLast(EnforceOnsGiven(s.history), MainnetLike, p.enforceOn);
    hide *;
    if GivenLast(ModesGiven(s.history), Open, Open) {
      GivenLastUnique(ModesGiven(s.history), Open, Open, p.mode);
    }
    if GivenLast(EnforceOnsGiven(s.history), MainnetLike, MainnetLike) {
      GivenLastUnique(EnforceOnsGiven(s.history), MainnetLike, MainnetLike, p.enforceOn);
    }
  }

  /** The record an accepted change leaves: the change as it was made, between the policy
      that was in force and the one that now is. */
  lemma ChangeIsRecorded(s: System, update: Update, action: Action, template: Option<Template>, env: Env)
    requires Inv(s) && GoodEnv(env) && NewRecipients(update, []).Some?
    ensures var before, t := Load(s, env.defaultAt).policy, ApplyChange(s, update, action, template, env);
      && before.Some? && t.policy.Some? && t.audit.Some? && t.audit.value != []
      && var r := t.audit.value[|t.audit.value| - 1];
      && r.id == env.id && r.at == env.at && r.action == action && r.template == template
      && r.before == before.value && r.after == t.policy.value && r.after.updatedAt == env.updatedAt
      && Applies(update, r.before, r.after) && r.actor == r.after.updatedBy && r.note == r.after.note
  {
    hide *;
    GoodDefault(env);
    LoadKeeps(s, env.defaultAt);
    var u := Load(s, env.defaultAt);
    LoadAuditKeeps(u);
    var current := u.policy.value;
    NextApplies(update, current, env.updatedAt);
    var next := NextPolicy(update, current, NewRecipients(update, current.allowedRecipients).value, env.updatedAt);
    var record := RecordOf(current, next, action, template, env);
    ChangeCommits(s, update, action, template, env);
    LoadedAudit(u);
    CommitRecords(LoadAudit(u), next, Entry(record, update), env.writeOk);
    RecordFields(current, next, action, template, env);
    NextFields(update, current, NewRecipients(update, current.allowedRecipients).value, env.updatedAt);
  }

  lemma GoodDefault(env: Env)
    requires GoodEnv(env)
    ensures Trim(env.defaultAt) != ""
  {
  }

  lemma LoadedAudit(s: System)
    ensures LoadAudit(s).audit.Some?
  {
    hide ReadStored;
  }

  lemma ChangeCommits(s: System, update: Update, action: Action, template: Option<Template>, env: Env)
    requires var t := Load(s, env.defaultAt);
      t.policy.Some? && LoadAudit(t).audit.Some? && NewRecipients(update, t.policy.value.allowedRecipients).Some?
    ensures var t := Load(s, env.defaultAt);
      var current := t.policy.value;
      var next := NextPolicy(update, current, NewRecipients(update, current.allowedRecipients).value, env.updatedAt);
      ApplyChange(s, update, action, template, env)
      == Commit(LoadAudit(t), next, Entry(RecordOf(current, next, action, template, env), update), env.writeOk)
  {
    hide Load, LoadAudit, NewRecipients, NextPolicy, RecordOf, Commit;
  }

  lemma CommitRecords(s: System, next: Policy, entry: Entry, writeOk: bool)
    requires s.audit.Some?
    ensures var t := Commit(s, next, entry, writeOk);
      && t.policy == Some(next) && t.audit.Some? && t.audit.value != []
      && t.audit.value[|t.audit.value| - 1] == entry.record
  {
  }

  lemma RecordFields(before: Policy, after: Policy, action: Action, template: Option<Template>, env: Env)
    ensures var r := RecordOf(before, after, action, template, env);
      && r.id == env.id && r.at == env.at && r.action == action && r.template == template
      && r.before == before && r.after == after && r.actor == after.updatedBy && r.note == after.note
  {
  }

  lemma NextFields(update: Update, current: Policy, recipients: seq<string>, now: string)
    ensures NextPolicy(update, current, recipients, now).updatedAt == now
  {
    hide FieldOr;
  }

  lemma NextApplies(update: Update, current: Policy, now: string)
    ensures NewRecipients(update, []).Some? <==> NewRecipients(update, current.allowedRecipients).Some?
    ensures forall recipients :: Applies(update, current, NextPolicy(update, current, recipients, now))
  {
    hide ParseAll, Dedup, Trim;
  }

  // ---- texts and files the code did not write ----

  /** An address is accepted exactly when, trimmed, it is 0x, in either case, and 40 hexadecimal
      digits; it is kept in lower case. */
  lemma ParseEvmAddressExactly(value: string)
    ensures var t := Trim(value);
      && (ParseEvmAddress(value).Some?
          <==> |t| == 42 && t[0] == '0' && (t[1] == 'x' || t[1] == 'X') && forall i | 2 <= i < 42 :: DigitVal(t[i]) < 16)
      && (ParseEvmAddress(value).Some? ==> ParseEvmAddress(value).value == ToLower(t))
  {
    var t := Trim(value);
    var n := ToLower(t);
    hide Trim;
    if |t| == 42 {
      assert n[..2] == "0x" <==> n[0] == '0' && n[1] == 'x' by {
        assert n[..2][0] == n[0] && n[..2][1] == n[1];
      }
      forall i | 2 <= i < 42
        ensures DigitVal(n[i]) < 16 && !('A' <= n[i] <= 'F') <==> DigitVal(t[i]) < 16
      {
        LowerDigit(t[i]);
      }
      LowerTail(n);
      hide ToLowerChar, DigitVal, LowerDigits;
      assert (forall i | 2 <= i < 42 :: DigitVal(n[i]) < 16 && !('A' <= n[i] <= 'F'))
        <==> (forall i | 2 <= i < 42 :: DigitVal(t[i]) < 16);
      assert n[0] == '0' <==> t[0] == '0' by { LowerDigit(t[0]); }
      assert n[1] == 'x' <==> t[1] == 'x' || t[1] == 'X' by { LowerDigit(t[1]); }
    }
  }

  lemma LowerDigit(c: char)
    ensures DigitVal(ToLowerChar(c)) < 16 && !('A' <= ToLowerChar(c) <= 'F') <==> DigitVal(c) < 16
    ensures (ToLowerChar(c) == '0' <==> c == '0') && (ToLowerChar(c) == 'x' <==> c == 'x' || c == 'X')
  {
  }

  lemma LowerTail(n: string)
    requires |n| == 42
    ensures LowerDigits(n[2..], Hex) <==> forall i | 2 <= i < 42 :: DigitVal(n[i]) < 16 && !('A' <= n[i] <= 'F')
  {
    hide DigitVal;
    if LowerDigits(n[2..], Hex) {
      forall i | 2 <= i < 42 ensures DigitVal(n[i]) < 16 && !('A' <= n[i] <= 'F') {
        assert n[2..][i - 2] == n[i];
      }
    }
  }

  /** A policy the file may hold: a positive version and a time that is not blank. */
  predicate Storable(p: Policy) {
    p.version >= 1 && Trim(p.updatedAt) != ""
  }

  /** A file is taken exactly when its policy, and the policies in each of its records, could
      have been stored and the records have an id and a time; it is taken with its audit
      log, if it has one, and its policy sanitised. */
  lemma ReadStoredExactly(disk: Option<Stored>, now: string)
    ensures ReadStored(disk, now).Some?
       <==> && disk.Some? && Storable(disk.value.policy)
            && (disk.value.audit.Some? ==> forall r | r in disk.value.audit.value ::
                  r.id != "" && r.at != "" && Storable(r.before) && Storable(r.after))
    ensures ReadStored(disk, now).Some? ==>
      ReadStored(disk, now).value == Stored(SanitizePolicy(disk.value.policy, now), disk.value.audit)
  {
    hide Trim, SanitizePolicy;
    if disk.Some? && disk.value.audit.Some? {
      var audit := disk.value.audit.value;
      assert (forall i | 0 <= i < |audit| :: IsStoredRecord(audit[i])) <==> (forall r | r in audit :: IsStoredRecord(r));
    }
  }

  /** Sanitising keeps what can be kept, whatever the policy: the version and the time when they
      are good, of the recipients, in order, the addresses in normal form; the rest untouched. */
  lemma {:induction false} SanitizeRepairs(p: Policy, now: string, a: string)
    ensures var q := SanitizePolicy(p, now);
      && (p.version >= 1 ==> q.version == p.version) && (p.version < 1 ==> q.version == 1)
      && (p.updatedAt != "" ==> q.updatedAt == p.updatedAt) && (p.updatedAt == "" ==> q.updatedAt == now)
      && q.updatedBy == p.updatedBy && q.note == p.note && q.mode == p.mode && q.enforceOn == p.enforceOn
      && (a in q.allowedRecipients <==> exists x :: x in p.allowedRecipients && ParseEvmAddress(x) == Some(a))
  {
    DedupSame(p.allowedRecipients);
    hide Dedup, ParseEvmAddress, SanitizeRecipients;
    SanitizedAre(Dedup(p.allowedRecipients), a);
  }

  lemma {:induction false} SanitizedAre(xs: seq<string>, a: string)
    ensures a in SanitizeRecipients(xs) <==> exists x :: x in xs && ParseEvmAddress(x) == Some(a)
  {
    if xs != [] {
      var init, last := xs[..|xs| - 1], xs[|xs| - 1];
      SanitizedAre(init, a);
      BlankIsNoAddress(last);
      assert xs == init + [last];
      hide ParseEvmAddress, Trim;
      assert forall x :: x in xs <==> x in init || x == last;
    }
  }

  lemma BlankIsNoAddress(x: string)
    ensures Trim(x) == "" ==> ParseEvmAddress(x).None?
  {
    hide Trim;
  }
}
