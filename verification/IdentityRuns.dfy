/** Runs of the fake identity provider: any number of concurrent calls, each taking its fault and
    applying itself in two separate critical sections, under any fault script. What a run means is
    read off its steps and its log of applied operations. */
module IdentityRuns {
  import opened Text
  import opened Identity
  import opened IdentityFake

  // ---------- The system ----------

  /** What a call carries from its first critical section to its second. */
  datatype Begun = Begun(op: Operation, fault: Option<Scripted>)

  predicate Proceeds(b: Begun) { b.fault.None? || b.fault.value.applied }

  /** What changes the accounts, in the order it did. */
  datatype Action = Applied(call: nat, op: Operation) | GroupRemoved

  datatype System = System(accounts: Accounts, faults: Faults, calls: Calls, begun: map<nat, Begun>, pending: set<nat>,
                           applied: seq<Action>, reports: map<nat, Outcome>)

  datatype Step =
    | ScriptFault(kind: Kind, fault: Scripted)
    | RemoveBrowseGroup
    | BeginCall(call: nat, op: Operation)
    | ApplyCall(call: nat)

  const NO_ACCOUNTS := Accounts(map[], 0, false)

  const FRESH := System(NO_ACCOUNTS, map[], map[], map[], {}, [], map[])

  ghost function Act(s: Accounts, action: Action): Accounts {
    match action
    case Applied(_, op) => Apply(s, op).0
    case GroupRemoved => s.(browseGroupMissing := true)
  }

  ghost function Next(s: System, step: Step): Option<System> {
    match step
    case ScriptFault(kind, fault) => Some(s.(faults := PushFault(s.faults, kind, fault)))
    case RemoveBrowseGroup =>
      Some(s.(accounts := Act(s.accounts, GroupRemoved), applied := s.applied + [GroupRemoved]))
    case BeginCall(call, op) =>
      if call in s.begun then None else
        var (fault, faults) := TakeFault(s.faults, KindOf(op));
        var b := Begun(op, fault);
        var s' := s.(faults := faults, calls := s.calls[KindOf(op) := CallCount(s.calls, KindOf(op)) + 1],
                     begun := s.begun[call := b]);
        Some(if Proceeds(b) then s'.(pending := s.pending + {call})
             else s'.(reports := s.reports[call := Failed(fault.value.error)]))
    case ApplyCall(call) =>
      if call !in s.pending || call !in s.begun then None else
        var Begun(op, fault) := s.begun[call];
        var (accounts, outcome) := Apply(s.accounts, op);
        Some(s.(accounts := accounts, pending := s.pending - {call}, applied := s.applied + [Applied(call, op)],
                reports := s.reports[call := Reported(fault, outcome)]))
  }

  /** The system after the steps, from nothing. */
  ghost function Run(steps: seq<Step>): Option<System> {
    if steps == [] then Some(FRESH) else
      match Run(steps[..|steps| - 1])
      case None => None
      case Some(s) => Next(s, steps[|steps| - 1])
  }

  lemma RunSnoc(steps: seq<Step>, step: Step)
    ensures Run(steps + [step]) == match Run(steps) case None => None case Some(s) => Next(s, step)
  {
    assert (steps + [step])[..|steps|] == steps;
  }

  // ---------- What the steps alone say ----------

  /** The faults scripted for a kind, oldest first. */
  function Scripts(steps: seq<Step>, kind: Kind): seq<Scripted> {
    if steps == [] then [] else
      var last := steps[|steps| - 1];
      Scripts(steps[..|steps| - 1], kind) + if last.ScriptFault? && last.kind == kind then [last.fault] else []
  }

  predicate Begins(step: Step, kind: Kind) { step.BeginCall? && KindOf(step.op) == kind }

  /** How many calls of a kind were begun. */
  function CallsBegun(steps: seq<Step>, kind: Kind): nat {
    if steps == [] then 0 else
      CallsBegun(steps[..|steps| - 1], kind) + if Begins(steps[|steps| - 1], kind) then 1 else 0
  }

  /** How many faults of a kind were used up: each call uses one up if any is left. */
  function Taken(steps: seq<Step>, kind: Kind): nat {
    if steps == [] then 0 else
      var before := steps[..|steps| - 1];
      Taken(before, kind) + if Begins(steps[|steps| - 1], kind) && Taken(before, kind) < |Scripts(before, kind)| then 1 else 0
  }

  /** The fault for a call begun after these steps: the oldest left, if any. */
  function NextFault(steps: seq<Step>, kind: Kind): Option<Scripted> {
    if Taken(steps, kind) < |Scripts(steps, kind)| then Some(Scripts(steps, kind)[Taken(steps, kind)]) else None
  }

  /** The call begun by step `i`, with the fault it is due. */
  predicate BegunAt(steps: seq<Step>, i: nat, call: nat, b: Begun) {
    i < |steps| && steps[i].BeginCall? && steps[i].call == call && b == Begun(steps[i].op, NextFault(steps[..i], KindOf(steps[i].op)))
  }

  lemma BegunAtSnoc(steps: seq<Step>, step: Step, i: nat, call: nat, b: Begun)
    requires i < |steps|
    ensures BegunAt(steps + [step], i, call, b) <==> BegunAt(steps, i, call, b)
  {
    assert (steps + [step])[..i] == steps[..i] && (steps + [step])[i] == steps[i];
  }

  lemma BegunLast(steps: seq<Step>, call: nat, op: Operation)
    ensures BegunAt(steps + [BeginCall(call, op)], |steps|, call, Begun(op, NextFault(steps, KindOf(op))))
  {
    assert (steps + [BeginCall(call, op)])[..|steps|] == steps;
  }

  /** Who changed the accounts, in order: a call, or the removal of the group. */
  function Changes(steps: seq<Step>): seq<Option<nat>> {
    if steps == [] then [] else
      var last := steps[|steps| - 1];
      Changes(steps[..|steps| - 1]) + if last.ApplyCall? then [Some(last.call)] else if last.RemoveBrowseGroup? then [None] else []
  }

  function Changers(actions: seq<Action>): (r: seq<Option<nat>>)
    ensures |r| == |actions|
    ensures forall i :: 0 <= i < |actions| ==> r[i] == if actions[i].Applied? then Some(actions[i].call) else None
  {
    seq(|actions|, i requires 0 <= i < |actions| => if actions[i].Applied? then Some(actions[i].call) else None)
  }

  lemma StepsSnoc(steps: seq<Step>, step: Step, kind: Kind)
    ensures Scripts(steps + [step], kind)
         == Scripts(steps, kind) + if step.ScriptFault? && step.kind == kind then [step.fault] else []
    ensures CallsBegun(steps + [step], kind) == CallsBegun(steps, kind) + if Begins(step, kind) then 1 else 0
    ensures Taken(steps + [step], kind)
         == Taken(steps, kind) + if Begins(step, kind) && Taken(steps, kind) < |Scripts(steps, kind)| then 1 else 0
    ensures Changes(steps + [step])
         == Changes(steps) + if step.ApplyCall? then [Some(step.call)] else if step.RemoveBrowseGroup? then [None] else []
  {
    assert (steps + [step])[..|steps|] == steps;
  }

  // ---------- The fault-free, sequential run ----------

  ghost function Replay(actions: seq<Action>): Accounts {
    if actions == [] then NO_ACCOUNTS else Act(Replay(actions[..|actions| - 1]), actions[|actions| - 1])
  }

  /** What entry `i` of the log answers in that run. */
  ghost function AnswerAt(actions: seq<Action>, i: nat): Outcome
    requires i < |actions| && actions[i].Applied?
  {
    Apply(Replay(actions[..i]), actions[i].op).1
  }

  lemma ReplaySnoc(actions: seq<Action>, action: Action)
    ensures Replay(actions + [action]) == Act(Replay(actions), action)
  {
    assert (actions + [action])[..|actions|] == actions;
  }

  lemma AnswerAtSnoc(actions: seq<Action>, action: Action, i: nat)
    requires i <= |actions| && (actions + [action])[i].Applied?
    ensures AnswerAt(actions + [action], i) ==
            if i < |actions| then AnswerAt(actions, i) else Apply(Replay(actions), action.op).1
  {
    assert (actions + [action])[..i] == actions[..i];
    assert actions[..|actions|] == actions;
  }

  // ---------- Queues ----------

  predicate QueueInv(steps: seq<Step>, s: System, kind: Kind) {
    && Taken(steps, kind) <= |Scripts(steps, kind)|
    && Queue(s.faults, kind) == Scripts(steps, kind)[Taken(steps, kind)..]
    && CallCount(s.calls, kind) == CallsBegun(steps, kind)
  }

  lemma DropSnoc<T>(xs: seq<T>, n: nat, x: T)
    requires n <= |xs|
    ensures (xs + [x])[n..] == xs[n..] + [x]
  {
  }

  lemma DropOne<T>(xs: seq<T>, n: nat)
    requires n < |xs|
    ensures xs[n..] != [] && xs[n..][0] == xs[n] && xs[n..][1..] == xs[n + 1..]
  {
  }

  lemma TakeDrop<T>(xs: seq<T>, n: nat)
    requires n <= |xs|
    ensures xs == xs[..n] + xs[n..]
  {
  }

  lemma ScriptStep(steps: seq<Step>, s: System, script: Step, kind: Kind)
    requires QueueInv(steps, s, kind) && script.ScriptFault?
    ensures QueueInv(steps + [script], Next(s, script).value, kind)
  {
    StepsSnoc(steps, script, kind);
    if script.kind == kind { DropSnoc(Scripts(steps, kind), Taken(steps, kind), script.fault); }
  }

  lemma BeginEffect(s: System, call: nat, op: Operation, kind: Kind)
    requires call !in s.begun
    ensures var t, queue := Next(s, BeginCall(call, op)).value, Queue(s.faults, kind);
            && Queue(t.faults, kind) == (if kind == KindOf(op) && queue != [] then queue[1..] else queue)
            && CallCount(t.calls, kind) == CallCount(s.calls, kind) + if kind == KindOf(op) then 1 else 0
  {
  }

  lemma TakeStep(steps: seq<Step>, s: System, call: nat, op: Operation, kind: Kind)
    requires QueueInv(steps, s, kind) && call !in s.begun
    ensures QueueInv(steps + [BeginCall(call, op)], Next(s, BeginCall(call, op)).value, kind)
  {
    StepsSnoc(steps, BeginCall(call, op), kind);
    BeginEffect(s, call, op, kind);
    var scripts, n := Scripts(steps, kind), Taken(steps, kind);
    assert scripts + [] == scripts;
    if n < |scripts| { DropOne(scripts, n); }
  }

  lemma QueueStep(steps: seq<Step>, s: System, step: Step, kind: Kind)
    requires QueueInv(steps, s, kind) && Next(s, step).Some?
    ensures QueueInv(steps + [step], Next(s, step).value, kind)
  {
    match step
    case ScriptFault(_, _) => ScriptStep(steps, s, step, kind);
    case BeginCall(call, op) => TakeStep(steps, s, call, op, kind);
    case _ => StepsSnoc(steps, step, kind);
  }

  /** The fault a call takes is the one its place in the run is due. */
  lemma FaultIsDue(steps: seq<Step>, s: System, kind: Kind)
    requires QueueInv(steps, s, kind)
    ensures TakeFault(s.faults, kind).0 == NextFault(steps, kind)
  {
    if Taken(steps, kind) < |Scripts(steps, kind)| { DropOne(Scripts(steps, kind), Taken(steps, kind)); }
  }

  // ---------- Calls ----------

  ghost predicate IsBegun(steps: seq<Step>, s: System, call: nat)
    requires call in s.begun
  {
    exists i: nat :: BegunAt(steps, i, call, s.begun[call])
  }

  ghost predicate InLog(actions: seq<Action>, call: nat) {
    exists i :: 0 <= i < |actions| && actions[i].Applied? && actions[i].call == call
  }

  /** Where a call stands: unknown, refused without effect, waiting to apply, or applied. */
  ghost predicate CallInv(s: System, call: nat) {
    if call !in s.begun then call !in s.pending && call !in s.reports && !InLog(s.applied, call)
    else if !Proceeds(s.begun[call]) then
      && call !in s.pending && !InLog(s.applied, call)
      && call in s.reports && s.reports[call] == Failed(s.begun[call].fault.value.error)
    else
      && (call in s.pending <==> call !in s.reports)
      && (call in s.reports <==> InLog(s.applied, call))
  }

  /** Entry `i` is a call that proceeded, and it reported what the sequential run answers there. */
  ghost predicate EntryInv(s: System, i: nat)
    requires i < |s.applied|
  {
    s.applied[i].Applied? ==>
      var Applied(call, op) := s.applied[i];
      && call in s.begun && s.begun[call].op == op && Proceeds(s.begun[call])
      && call in s.reports && s.reports[call] == Reported(s.begun[call].fault, AnswerAt(s.applied, i))
  }

  ghost predicate AppliedOnce(actions: seq<Action>) {
    forall i, j :: 0 <= i < j < |actions| && actions[i].Applied? && actions[j].Applied? ==> actions[i].call != actions[j].call
  }

  ghost predicate CallsInv(s: System) {
    && (forall call: nat :: CallInv(s, call))
    && (forall i :: 0 <= i < |s.applied| ==> EntryInv(s, i))
    && AppliedOnce(s.applied)
  }

  ghost predicate AllBegun(steps: seq<Step>, s: System) {
    && (forall call :: call in s.begun ==> IsBegun(steps, s, call))
    && (forall i :: 0 <= i < |steps| && steps[i].BeginCall? ==> steps[i].call in s.begun)
  }

  ghost predicate BegunIn(steps: seq<Step>, call: nat) {
    exists i :: 0 <= i < |steps| && steps[i].BeginCall? && steps[i].call == call
  }

  lemma BegunStepOf(steps: seq<Step>, s: System, call: nat)
    requires AllBegun(steps, s) && call in s.begun
    ensures BegunIn(steps, call)
  {
    assert IsBegun(steps, s, call);
    var i: nat :| BegunAt(steps, i, call, s.begun[call]);
    assert steps[i].BeginCall? && steps[i].call == call;
  }

  lemma BegunStep(steps: seq<Step>, s: System, step: Step)
    requires AllBegun(steps, s) && Next(s, step).Some?
    requires step.BeginCall? ==> QueueInv(steps, s, KindOf(step.op))
    ensures AllBegun(steps + [step], Next(s, step).value)
  {
    var t := Next(s, step).value;
    forall call | call in t.begun ensures IsBegun(steps + [step], t, call) {
      if step.BeginCall? && step.call == call {
        FaultIsDue(steps, s, KindOf(step.op));
        BegunLast(steps, call, step.op);
      } else {
        var i: nat :| BegunAt(steps, i, call, s.begun[call]);
        BegunAtSnoc(steps, step, i, call, s.begun[call]);
      }
    }
  }

  lemma InLogSnoc(actions: seq<Action>, action: Action, call: nat)
    ensures InLog(actions + [action], call) <==> InLog(actions, call) || (action.Applied? && action.call == call)
  {
    var more := actions + [action];
    if InLog(actions, call) {
      var i :| 0 <= i < |actions| && actions[i].Applied? && actions[i].call == call;
      assert more[i] == actions[i];
    }
    if action.Applied? && action.call == call { assert more[|actions|] == action; }
  }

  /** Beginning a call leaves the log alone. */
  lemma BeginKeepsCalls(s: System, call: nat, op: Operation)
    requires CallsInv(s) && Next(s, BeginCall(call, op)).Some?
    ensures CallsInv(Next(s, BeginCall(call, op)).value)
  {
    var t := Next(s, BeginCall(call, op)).value;
    assert CallInv(s, call);
    forall c: nat ensures CallInv(t, c) { assert CallInv(s, c); }
    forall i | 0 <= i < |t.applied| ensures EntryInv(t, i) { assert EntryInv(s, i); }
  }

  lemma GroupKeepsCalls(s: System)
    requires CallsInv(s)
    ensures CallsInv(Next(s, RemoveBrowseGroup).value)
  {
    var t := Next(s, RemoveBrowseGroup).value;
    forall c: nat ensures CallInv(t, c) {
      assert CallInv(s, c);
      InLogSnoc(s.applied, GroupRemoved, c);
    }
    forall i | 0 <= i < |t.applied| ensures EntryInv(t, i) {
      if i < |s.applied| {
        assert EntryInv(s, i);
        if s.applied[i].Applied? { AnswerAtSnoc(s.applied, GroupRemoved, i); }
      }
    }
  }

  lemma ApplyKeepsEntries(s: System, call: nat, i: nat)
    requires CallsInv(s) && s.accounts == Replay(s.applied) && Next(s, ApplyCall(call)).Some?
    requires i < |Next(s, ApplyCall(call)).value.applied|
    ensures EntryInv(Next(s, ApplyCall(call)).value, i)
  {
    var t := Next(s, ApplyCall(call)).value;
    var entry := Applied(call, s.begun[call].op);
    assert CallInv(s, call);
    if i < |s.applied| {
      assert EntryInv(s, i) && t.applied[i] == s.applied[i];
      if s.applied[i].Applied? {
        assert s.applied[i].call != call;
        AnswerAtSnoc(s.applied, entry, i);
      }
    } else {
      AnswerAtSnoc(s.applied, entry, i);
    }
  }

  lemma ApplyKeepsCalls(s: System, call: nat)
    requires CallsInv(s) && s.accounts == Replay(s.applied) && Next(s, ApplyCall(call)).Some?
    ensures CallsInv(Next(s, ApplyCall(call)).value)
  {
    var t := Next(s, ApplyCall(call)).value;
    assert CallInv(s, call);
    forall c: nat ensures CallInv(t, c) {
      assert CallInv(s, c);
      InLogSnoc(s.applied, Applied(call, s.begun[call].op), c);
    }
    forall i | 0 <= i < |t.applied| ensures EntryInv(t, i) { ApplyKeepsEntries(s, call, i); }
    forall i, j | 0 <= i < j < |t.applied| && t.applied[i].Applied? && t.applied[j].Applied?
      ensures t.applied[i].call != t.applied[j].call
    {
      assert t.applied[i] == s.applied[i];
    }
  }

  // ---------- What is issued ----------

  /** Account ids, credential ids and secrets, each in the order they were issued. */
  datatype Issue = Issue(ids: seq<string>, credentials: seq<string>, secrets: seq<string>)

  ghost function IssuedBy(s: Accounts, action: Action): Issue {
    if action.GroupRemoved? then Issue([], [], []) else
      var (after, outcome) := Apply(s, action.op);
      match outcome
      case Success(Provisioned(account, _, _, secret)) =>
        Issue([account], if account in after.accounts then [after.accounts[account].credential] else [], [secret])
      case Success(Replaced(_, secret)) => Issue([], [], [secret])
      case _ => Issue([], [], [])
  }

  function Joined(a: Issue, b: Issue): Issue { Issue(a.ids + b.ids, a.credentials + b.credentials, a.secrets + b.secrets) }

  /** Everything issued while the actions run. */
  ghost function Issued(actions: seq<Action>): Issue {
    if actions == [] then Issue([], [], []) else
      var before := actions[..|actions| - 1];
      Joined(Issued(before), IssuedBy(Replay(before), actions[|actions| - 1]))
  }

  lemma IssuedSnoc(actions: seq<Action>, action: Action)
    ensures Issued(actions + [action]) == Joined(Issued(actions), IssuedBy(Replay(actions), action))
  {
    assert (actions + [action])[..|actions|] == actions;
  }

  ghost predicate IdIssued(id: string, nextId: nat) { exists n :: 1 <= n <= nextId && id == Decimal(n) }

  ghost predicate IdsIssued(ids: seq<string>, nextId: nat) {
    forall i :: 0 <= i < |ids| ==> IdIssued(ids[i], nextId)
  }

  /** Every secret names an account id and a generation no later than the counter. */
  ghost predicate SecretIssued(secret: string, nextId: nat) {
    exists n, g :: 1 <= n <= nextId && 0 <= g <= nextId && secret == SecretText(Decimal(n), g)
  }

  lemma IdIsNew(id: string, nextId: nat)
    requires IdIssued(id, nextId)
    ensures IdIssued(id, nextId + 1) && id != Decimal(nextId + 1)
  {
    var n :| 1 <= n <= nextId && id == Decimal(n);
    assert 1 <= n <= nextId + 1;
    if id == Decimal(nextId + 1) { DecimalInjective(n, nextId + 1); }
  }

  lemma IdsIssuedGrows(ids: seq<string>, nextId: nat)
    requires IdsIssued(ids, nextId)
    ensures IdsIssued(ids, nextId + 1) && Decimal(nextId + 1) !in ids
  {
    forall i | 0 <= i < |ids| ensures IdIssued(ids[i], nextId + 1) && ids[i] != Decimal(nextId + 1) {
      IdIsNew(ids[i], nextId);
    }
  }

  /** A secret carrying a new account id or a new generation has never been issued. */
  lemma SecretIsNew(secret: string, nextId: nat, n: nat, g: nat)
    requires SecretIssued(secret, nextId) && (n == nextId + 1 || g == nextId + 1)
    ensures SecretIssued(secret, nextId + 1) && secret != SecretText(Decimal(n), g)
  {
    var m, h :| 1 <= m <= nextId && 0 <= h <= nextId && secret == SecretText(Decimal(m), h);
    assert 1 <= m <= nextId + 1 && 0 <= h <= nextId + 1;
    if secret == SecretText(Decimal(n), g) { SecretTextInjective(m, h, n, g); }
  }

  ghost predicate SecretsIssued(secrets: seq<string>, nextId: nat) {
    forall i :: 0 <= i < |secrets| ==> SecretIssued(secrets[i], nextId)
  }

  lemma SecretsIssuedGrow(secrets: seq<string>, nextId: nat, n: nat, g: nat)
    requires SecretsIssued(secrets, nextId) && (n == nextId + 1 || g == nextId + 1) && 1 <= n <= nextId + 1 && g <= nextId + 1
    ensures SecretsIssued(secrets + [SecretText(Decimal(n), g)], nextId + 1)
    ensures SecretText(Decimal(n), g) !in secrets
  {
    forall i | 0 <= i < |secrets|
      ensures SecretIssued(secrets[i], nextId + 1) && secrets[i] != SecretText(Decimal(n), g)
    {
      SecretIsNew(secrets[i], nextId, n, g);
    }
    assert SecretIssued(SecretText(Decimal(n), g), nextId + 1);
  }

  predicate CredentialsOf(ids: seq<string>, credentials: seq<string>) {
    |ids| == |credentials| && forall i :: 0 <= i < |ids| ==> credentials[i] == CredentialText(ids[i])
  }

  lemma CredentialsDistinct(ids: seq<string>, credentials: seq<string>)
    requires CredentialsOf(ids, credentials) && Distinct(ids)
    ensures Distinct(credentials)
  {
    forall i, j | 0 <= i < j < |credentials| ensures credentials[i] != credentials[j] {
      if credentials[i] == credentials[j] { PrefixInjective("fake-credential-", ids[i], ids[j]); }
    }
  }

  /** The part of the invariant that speaks of what was issued. */
  ghost predicate IssuedInv(accounts: Accounts, issue: Issue) {
    && IdsIssued(issue.ids, accounts.nextId) && Distinct(issue.ids)
    && CredentialsOf(issue.ids, issue.credentials)
    && SecretsIssued(issue.secrets, accounts.nextId) && Distinct(issue.secrets)
    && (forall k :: k in accounts.accounts ==> k in issue.ids && accounts.accounts[k].secret in issue.secrets)
  }

  lemma CreateIssues(a: Accounts, call: nat, username: string, issue: Issue)
    requires Inv(a) && IssuedInv(a, issue) && !UsernameTaken(a, username)
    ensures Issues(a, Applied(call, CreateAccount(username)), issue)
  {
    var n := a.nextId + 1;
    IdsIssuedGrows(issue.ids, a.nextId);
    SecretsIssuedGrow(issue.secrets, a.nextId, n, 0);
    DistinctSnoc(issue.ids, Decimal(n));
    DistinctSnoc(issue.secrets, SecretText(Decimal(n), 0));
    assert IdIssued(Decimal(n), n);
    assert IssuedBy(a, Applied(call, CreateAccount(username)))
        == Issue([Decimal(n)], [CredentialText(Decimal(n))], [SecretText(Decimal(n), 0)]);
  }

  lemma ReplaceFindsNone(a: Accounts, issue: Issue)
    requires IssuedInv(a, issue)
    ensures IssuedInv(a.(nextId := a.nextId + 1), issue)
  {
    IdsIssuedGrows(issue.ids, a.nextId);
    forall i | 0 <= i < |issue.secrets| ensures SecretIssued(issue.secrets[i], a.nextId + 1) {
      SecretIsNew(issue.secrets[i], a.nextId, a.nextId + 1, 0);
    }
  }

  lemma StillHeld(a: Accounts, k: string, ids: seq<string>, secrets: seq<string>, secret: string)
    requires k in a.accounts && secret == SecretText(a.accounts[k].id, a.nextId + 1)
    requires forall j :: j in a.accounts ==> j in ids && a.accounts[j].secret in secrets
    ensures forall j :: j in ReplacedAt(a, k).accounts ==> j in ids && ReplacedAt(a, k).accounts[j].secret in secrets + [secret]
  {
  }

  lemma ReplaceIssues(a: Accounts, k: string, issue: Issue)
    requires Inv(a) && IssuedInv(a, issue) && k in a.accounts
    ensures IssuedInv(ReplacedAt(a, k), issue.(secrets := issue.secrets + [SecretText(a.accounts[k].id, a.nextId + 1)]))
  {
    var g := a.nextId + 1;
    var secret := SecretText(k, g);
    IdsIssuedGrows(issue.ids, a.nextId);
    assert AccountInv(k, a.accounts[k], a.nextId);
    var n :| 1 <= n <= a.nextId && k == Decimal(n);
    SecretsIssuedGrow(issue.secrets, a.nextId, n, g);
    DistinctSnoc(issue.secrets, secret);
    StillHeld(a, k, issue.ids, issue.secrets, secret);
  }

  ghost predicate Issues(a: Accounts, action: Action, issue: Issue) {
    IssuedInv(Act(a, action), Joined(issue, IssuedBy(a, action)))
  }

  lemma JoinedNothing(issue: Issue, secrets: seq<string>)
    ensures Joined(issue, Issue([], [], secrets)) == issue.(secrets := issue.secrets + secrets)
    ensures Joined(issue, Issue([], [], [])) == issue
  {
    assert issue.ids + [] == issue.ids && issue.credentials + [] == issue.credentials && issue.secrets + [] == issue.secrets;
  }

  lemma ReplacementIs(a: Accounts, call: nat, credential: string)
    ensures var action := Applied(call, ReplaceCredential(credential));
            match Holder(a, credential)
            case None => Act(a, action) == a.(nextId := a.nextId + 1) && IssuedBy(a, action) == Issue([], [], [])
            case Some(k) => Act(a, action) == ReplacedAt(a, k)
                            && IssuedBy(a, action) == Issue([], [], [SecretText(a.accounts[k].id, a.nextId + 1)])
  {
  }

  lemma ReplaceCredentialIssues(a: Accounts, call: nat, credential: string, issue: Issue)
    requires Inv(a) && IssuedInv(a, issue)
    ensures Issues(a, Applied(call, ReplaceCredential(credential)), issue)
  {
    ReplacementIs(a, call, credential);
    match Holder(a, credential)
    case None =>
      ReplaceFindsNone(a, issue);
      JoinedNothing(issue, []);
    case Some(k) =>
      ReplaceIssues(a, k, issue);
      JoinedNothing(issue, [SecretText(a.accounts[k].id, a.nextId + 1)]);
  }

  lemma OthersIssueNothing(a: Accounts, call: nat, op: Operation)
    requires !op.ReplaceCredential? && (op.CreateAccount? ==> UsernameTaken(a, op.username))
    ensures IssuedBy(a, Applied(call, op)) == Issue([], [], [])
    ensures Apply(a, op).0.nextId == a.nextId && Apply(a, op).0.accounts.Keys <= a.accounts.Keys
  {
  }

  lemma ApplyIssues(a: Accounts, call: nat, op: Operation, issue: Issue)
    requires Inv(a) && IssuedInv(a, issue)
    ensures Issues(a, Applied(call, op), issue)
  {
    if op.ReplaceCredential? {
      ReplaceCredentialIssues(a, call, op.credential, issue);
    } else if op.CreateAccount? && !UsernameTaken(a, op.username) {
      CreateIssues(a, call, op.username, issue);
    } else {
      OthersIssueNothing(a, call, op);
      JoinedNothing(issue, []);
      forall k | k in Apply(a, op).0.accounts ensures Apply(a, op).0.accounts[k].secret in issue.secrets {
        CredentialsChangeOnlyOnReplacement(a, op, k);
      }
    }
  }

  // ---------- Over every run ----------

  ghost predicate RunInv(steps: seq<Step>, s: System) {
    && (forall kind: Kind :: QueueInv(steps, s, kind))
    && AllBegun(steps, s)
    && Changers(s.applied) == Changes(steps)
    && CallsInv(s)
    && Logged(s.accounts, s.applied)
  }

  /** The accounts' part of the invariant, for accounts and a log. */
  ghost predicate Logged(accounts: Accounts, actions: seq<Action>) {
    Inv(accounts) && accounts == Replay(actions) && IssuedInv(accounts, Issued(actions))
  }

  lemma ActionStep(accounts: Accounts, actions: seq<Action>, action: Action)
    requires Logged(accounts, actions)
    ensures Logged(Act(accounts, action), actions + [action])
  {
    ReplaySnoc(actions, action);
    IssuedSnoc(actions, action);
    match action
    case GroupRemoved => JoinedNothing(Issued(actions), []);
    case Applied(call, op) =>
      ApplyKeepsInv(accounts, op);
      ApplyIssues(accounts, call, op, Issued(actions));
  }

  lemma AccountsStep(s: System, step: Step)
    requires Logged(s.accounts, s.applied) && Next(s, step).Some?
    ensures var t := Next(s, step).value; Logged(t.accounts, t.applied)
  {
    match step
    case ScriptFault(_, _) =>
    case BeginCall(_, _) =>
    case RemoveBrowseGroup => ActionStep(s.accounts, s.applied, GroupRemoved);
    case ApplyCall(call) => ActionStep(s.accounts, s.applied, Applied(call, s.begun[call].op));
  }

  lemma CallsStep(s: System, step: Step)
    requires CallsInv(s) && s.accounts == Replay(s.applied) && Next(s, step).Some?
    ensures CallsInv(Next(s, step).value)
  {
    match step
    case ScriptFault(_, _) =>
      var t := Next(s, step).value;
      forall c: nat ensures CallInv(t, c) { assert CallInv(s, c); }
      forall i | 0 <= i < |t.applied| ensures EntryInv(t, i) { assert EntryInv(s, i); }
    case BeginCall(call, op) => BeginKeepsCalls(s, call, op);
    case RemoveBrowseGroup => GroupKeepsCalls(s);
    case ApplyCall(call) => ApplyKeepsCalls(s, call);
  }

  lemma ChangersSnoc(actions: seq<Action>, action: Action)
    ensures Changers(actions + [action]) == Changers(actions) + [if action.Applied? then Some(action.call) else None]
  {
  }

  lemma ChangersStep(steps: seq<Step>, s: System, step: Step)
    requires Changers(s.applied) == Changes(steps) && Next(s, step).Some?
    ensures Changers(Next(s, step).value.applied) == Changes(steps + [step])
  {
    StepsSnoc(steps, step, Create);
    match step
    case RemoveBrowseGroup => ChangersSnoc(s.applied, GroupRemoved);
    case ApplyCall(call) => ChangersSnoc(s.applied, Applied(call, s.begun[call].op));
    case _ => assert Changes(steps) + [] == Changes(steps);
  }

  lemma RunStep(steps: seq<Step>, s: System, step: Step)
    requires RunInv(steps, s) && Next(s, step).Some?
    ensures RunInv(steps + [step], Next(s, step).value)
  {
    forall kind: Kind ensures QueueInv(steps + [step], Next(s, step).value, kind) { QueueStep(steps, s, step, kind); }
    BegunStep(steps, s, step);
    ChangersStep(steps, s, step);
    CallsStep(s, step);
    AccountsStep(s, step);
  }

  lemma FreshInv()
    ensures RunInv([], FRESH)
  {
  }

  lemma {:induction false} RunKeepsInv(steps: seq<Step>)
    requires Run(steps).Some?
    ensures RunInv(steps, Run(steps).value)
  {
    if steps == [] {
      FreshInv();
    } else {
      var init, last := steps[..|steps| - 1], steps[|steps| - 1];
      assert steps == init + [last];
      RunKeepsInv(init);
      RunStep(init, Run(init).value, last);
    }
  }

  /** Over every interleaving: a call takes the oldest fault still queued for its kind when it
      begins, or none when none is; what was scripted and not taken is still queued, in order; and
      the counters count the calls begun. */
  lemma FaultsAreTakenInOrder(steps: seq<Step>, kind: Kind)
    requires Run(steps).Some?
    ensures var s := Run(steps).value;
            && Taken(steps, kind) <= |Scripts(steps, kind)|
            && Scripts(steps, kind) == Scripts(steps, kind)[..Taken(steps, kind)] + Queue(s.faults, kind)
            && CallCount(s.calls, kind) == CallsBegun(steps, kind)
            && (forall call: nat :: call in s.begun <==> BegunIn(steps, call))
            && (forall call :: call in s.begun ==> IsBegun(steps, s, call))
  {
    RunKeepsInv(steps);
    var s := Run(steps).value;
    assert QueueInv(steps, s, kind);
    TakeDrop(Scripts(steps, kind), Taken(steps, kind));
    forall call: nat ensures call in s.begun <==> BegunIn(steps, call) {
      if call in s.begun { BegunStepOf(steps, s, call); }
    }
  }

  /** Over every interleaving and every fault script. The accounts are what the fault-free, sequential
      run of the log leaves, and the log is the applications and group removals in step order. No
      call is in it twice; a call is in it exactly when it has finished and its fault, if any, lets
      it through; one that is not let through reports its fault. Every call in it reported what the
      sequential run answers at its place, or its fault. */
  lemma FaultyRunsAreSequentialRuns(steps: seq<Step>)
    requires Run(steps).Some?
    ensures var s := Run(steps).value;
            && s.accounts == Replay(s.applied)
            && Changers(s.applied) == Changes(steps)
            && AppliedOnce(s.applied)
            && (forall call: nat :: InLog(s.applied, call) <==> call in s.begun && Proceeds(s.begun[call]) && call in s.reports)
            && (forall call: nat :: call in s.begun && !Proceeds(s.begun[call]) ==>
                  call in s.reports && s.reports[call] == Failed(s.begun[call].fault.value.error))
            && (forall i :: 0 <= i < |s.applied| && s.applied[i].Applied? ==>
                  var call := s.applied[i].call;
                  && call in s.begun && s.begun[call].op == s.applied[i].op && call in s.reports
                  && s.reports[call] == (if s.begun[call].fault.Some? then Failed(s.begun[call].fault.value.error)
                                         else AnswerAt(s.applied, i)))
  {
    RunKeepsInv(steps);
    var s := Run(steps).value;
    forall call: nat
      ensures InLog(s.applied, call) <==> call in s.begun && Proceeds(s.begun[call]) && call in s.reports
      ensures call in s.begun && !Proceeds(s.begun[call]) ==>
                call in s.reports && s.reports[call] == Failed(s.begun[call].fault.value.error)
    {
      assert CallInv(s, call);
    }
    forall i | 0 <= i < |s.applied| && s.applied[i].Applied?
      ensures var call := s.applied[i].call;
              && call in s.begun && s.begun[call].op == s.applied[i].op && call in s.reports
              && s.reports[call] == (if s.begun[call].fault.Some? then Failed(s.begun[call].fault.value.error)
                                     else AnswerAt(s.applied, i))
    {
      assert EntryInv(s, i);
    }
  }

  /** The browsing group is missing exactly once it has been removed. */
  lemma {:induction false} GroupIsMissingOnceRemoved(steps: seq<Step>)
    requires Run(steps).Some?
    ensures Run(steps).value.accounts.browseGroupMissing <==> RemoveBrowseGroup in steps
  {
    if steps != [] {
      var init, last := steps[..|steps| - 1], steps[|steps| - 1];
      assert steps == init + [last];
      GroupIsMissingOnceRemoved(init);
      GroupStep(Run(init).value, last);
    }
  }

  lemma GroupStep(s: System, step: Step)
    requires Next(s, step).Some?
    ensures Next(s, step).value.accounts.browseGroupMissing <==> s.accounts.browseGroupMissing || step == RemoveBrowseGroup
  {
    if step.ApplyCall? { OperationsKeepTheGroup(s.accounts, s.begun[step.call].op); }
  }

  lemma OperationsKeepTheGroup(s: Accounts, op: Operation)
    ensures Apply(s, op).0.browseGroupMissing == s.browseGroupMissing
  {
  }

  /** Over every run no account id, credential id or secret is issued twice, even to an account since
      deleted, and the accounts present have distinct usernames and credentials, all of them issued. */
  lemma NothingIsIssuedTwice(steps: seq<Step>)
    requires Run(steps).Some?
    ensures var s := Run(steps).value;
            var issue := Issued(s.applied);
            && Distinct(issue.ids) && Distinct(issue.credentials) && Distinct(issue.secrets)
            && (forall k :: k in s.accounts.accounts ==>
                  var a := s.accounts.accounts[k];
                  a.id == k && k in issue.ids && a.credential in issue.credentials && a.secret in issue.secrets)
            && (forall j, k :: j in s.accounts.accounts && k in s.accounts.accounts && j != k ==>
                  && s.accounts.accounts[j].username != s.accounts.accounts[k].username
                  && s.accounts.accounts[j].credential != s.accounts.accounts[k].credential)
  {
    RunKeepsInv(steps);
    var s := Run(steps).value;
    var issue := Issued(s.applied);
    CredentialsDistinct(issue.ids, issue.credentials);
    forall k | k in s.accounts.accounts ensures s.accounts.accounts[k].id == k && s.accounts.accounts[k].credential in issue.credentials {
      assert AccountInv(k, s.accounts.accounts[k], s.accounts.nextId);
      var i :| 0 <= i < |issue.ids| && issue.ids[i] == k;
      assert issue.credentials[i] == CredentialText(k);
    }
    forall j, k | j in s.accounts.accounts && k in s.accounts.accounts && j != k
      ensures s.accounts.accounts[j].credential != s.accounts.accounts[k].credential
    {
      IdentifiersAreUnique(s.accounts, j, k);
    }
  }
}
