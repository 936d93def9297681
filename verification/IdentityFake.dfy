/** `FakeIdentityProvider` itself: every operation counts the call, takes its scripted failure, and
    then applies itself or not. */
module IdentityFake {
  import opened Text
  import opened Identity

  /** A scripted failure, and whether the operation is applied before it is reported. */
  datatype Scripted = Scripted(error: ProviderError, applied: bool)

  type Faults = map<Kind, seq<Scripted>>
  type Calls = map<Kind, nat>

  function Queue(faults: Faults, kind: Kind): seq<Scripted> { if kind in faults then faults[kind] else [] }

  function CallCount(calls: Calls, kind: Kind): nat { if kind in calls then calls[kind] else 0 }

  /** `begin`: the failure taken, if any, and the queues left. */
  function TakeFault(faults: Faults, kind: Kind): (Option<Scripted>, Faults) {
    if Queue(faults, kind) == [] then (None, faults)
    else (Some(faults[kind][0]), faults[kind := faults[kind][1..]])
  }

  function PushFault(faults: Faults, kind: Kind, fault: Scripted): Faults {
    faults[kind := Queue(faults, kind) + [fault]]
  }

  /** What a call reports, given its fault and what applying it would answer. */
  ghost function Reported(fault: Option<Scripted>, outcome: Outcome): Outcome {
    if fault.None? then outcome else Failed(fault.value.error)
  }

  ghost function Performed(s: Accounts, fault: Option<Scripted>, op: Operation): Accounts {
    if fault.Some? && !fault.value.applied then s else Apply(s, op).0
  }

  class FakeIdentityProvider {
    var accounts: map<string, Account>
    var nextId: nat
    var browseGroupMissing: bool
    var faults: Faults
    var calls: Calls

    ghost function Value(): Accounts
      reads this
    {
      Accounts(accounts, nextId, browseGroupMissing)
    }

    ghost predicate Valid()
      reads this
    {
      Inv(Value())
    }

    constructor ()
      ensures Valid() && Value() == Accounts(map[], 0, false) && faults == map[] && calls == map[]
    {
      accounts, nextId, browseGroupMissing := map[], 0, false;
      faults, calls := map[], map[];
    }

    /** `fail_next`. */
    method FailNext(kind: Kind, error: ProviderError)
      modifies this`faults
      ensures faults == PushFault(old(faults), kind, Scripted(error, error == Ambiguous || error == Invalid))
    {
      faults := PushFault(faults, kind, Scripted(error, error == Ambiguous || error == Invalid));
    }

    /** `begin`. */
    method Begin(kind: Kind) returns (scripted: Option<Scripted>)
      modifies this`faults, this`calls
      ensures (scripted, faults) == TakeFault(old(faults), kind)
      ensures calls == old(calls)[kind := CallCount(old(calls), kind) + 1]
    {
      calls := calls[kind := CallCount(calls, kind) + 1];
      scripted := None;
      if kind in faults && faults[kind] != [] {
        scripted := Some(faults[kind][0]);
        faults := faults[kind := faults[kind][1..]];
      }
    }

    /** `run`: begin, apply unless told not to, and report the failure or the operation's result. */
    method Perform(op: Operation) returns (outcome: Outcome)
      requires Valid()
      modifies this
      ensures Valid()
      ensures var fault := TakeFault(old(faults), KindOf(op)).0;
              Value() == Performed(old(Value()), fault, op)
              && outcome == Reported(fault, Apply(old(Value()), op).1)
      ensures faults == TakeFault(old(faults), KindOf(op)).1
      ensures calls == old(calls)[KindOf(op) := CallCount(old(calls), KindOf(op)) + 1]
    {
      var scripted := Begin(KindOf(op));
      match scripted
      case None => outcome := ApplyTo(op);
      case Some(fault) =>
        if fault.applied { var _ := ApplyTo(op); }
        outcome := Failed(fault.error);
    }

    /** The closure each operation passes to `run`. */
    method ApplyTo(op: Operation) returns (outcome: Outcome)
      requires Valid()
      modifies this`accounts, this`nextId
      ensures Valid() && (Value(), outcome) == Apply(old(Value()), op)
    {
      ApplyKeepsInv(Value(), op);
      match op
      case CreateAccount(username) => outcome := Create(username);
      case ReplaceCredential(credential) => outcome := ReplaceSecret(credential);
      case FindAccount(username) =>
        if k :| k in accounts && accounts[k].username == username {
          assert Named(Value(), username) == Some(k) by { OneNamed(Value(), username, k); }
          return Success(AccountIs(Some(accounts[k].id)));
        }
        return Success(AccountIs(None));
      case FindCredentials(username) =>
        return Success(CredentialsAre(
          set k | k in accounts && accounts[k].username == username :: accounts[k].credential));
      case DeleteAccount(account) =>
        if account !in accounts { return Failed(NotFound); }
        accounts := accounts - {account};
        return Success(Done);
      case GrantAccount(account, grant) =>
        if account !in accounts { return Failed(NotFound); }
        var a := accounts[account];
        accounts := accounts[account := a.(name := Some(grant.displayName), connectionId := Some(grant.connectionId),
                                           root := Some(grant.root), permissions := grant.permissions)];
        return Success(Done);
      case AssignBrowseGroup(account) =>
        if browseGroupMissing { return Failed(NotFound); }
        if account !in accounts { return Failed(NotFound); }
        accounts := accounts[account := accounts[account].(inBrowseGroup := true)];
        return Success(Done);
      case RenameAccount(account, displayName) =>
        if account !in accounts { return Failed(NotFound); }
        accounts := accounts[account := accounts[account].(name := Some(displayName))];
        return Success(Done);
    }

    method Create(username: string) returns (outcome: Outcome)
      modifies this`accounts, this`nextId
      ensures (Value(), outcome) == Apply(old(Value()), CreateAccount(username))
    {
      if exists k :: k in accounts && accounts[k].username == username {
        return Failed(Rejected);
      }
      nextId := nextId + 1;
      var created := NewAccount(nextId, username);
      accounts := accounts[created.id := created];
      return Success(Provisioned(created.id, created.subject, created.clientId, created.secret));
    }

    method ReplaceSecret(credential: string) returns (outcome: Outcome)
      requires Valid()
      modifies this`accounts, this`nextId
      ensures (Value(), outcome) == Apply(old(Value()), ReplaceCredential(credential))
    {
      ghost var before := Value();
      nextId := nextId + 1;
      if k :| k in accounts && accounts[k].credential == credential {
        assert Holder(before, credential) == Some(k) by { OneHolder(before, credential, k); }
        var account := accounts[k].(secret := SecretText(accounts[k].id, nextId));
        accounts := accounts[k := account];
        return Success(Replaced(account.clientId, account.secret));
      }
      return Failed(NotFound);
    }
  }

  /** Every operation has its own kind, so faults and counts of one never reach another. */
  lemma KindsAreOperations(a: Operation, b: Operation)
    ensures KindOf(a) == KindOf(b) <==>
            || (a.CreateAccount? && b.CreateAccount?) || (a.GrantAccount? && b.GrantAccount?)
            || (a.AssignBrowseGroup? && b.AssignBrowseGroup?) || (a.RenameAccount? && b.RenameAccount?)
            || (a.FindAccount? && b.FindAccount?) || (a.FindCredentials? && b.FindCredentials?)
            || (a.ReplaceCredential? && b.ReplaceCredential?) || (a.DeleteAccount? && b.DeleteAccount?)
  {
  }

  lemma OneNamed(s: Accounts, username: string, k: string)
    requires Inv(s) && k in s.accounts && s.accounts[k].username == username
    ensures Named(s, username) == Some(k) && s.accounts[k].id == k
  {
    assert AccountInv(k, s.accounts[k], s.nextId);
  }

  lemma OneHolder(s: Accounts, credential: string, k: string)
    requires Inv(s) && k in s.accounts && s.accounts[k].credential == credential
    ensures Holder(s, credential) == Some(k)
  {
    var h := Holder(s, credential).value;
    if h != k { IdentifiersAreUnique(s, h, k); }
  }

  /** With faults scripted by `fail_next`, a class that says the request was definitely not applied
      says so truthfully: no account changed. */
  lemma DefinitelyNotAppliedIsTrue(s: Accounts, fault: Option<Scripted>, op: Operation)
    requires fault.Some? && fault.value.applied ==> fault.value.error == Ambiguous || fault.value.error == Invalid
    requires Reported(fault, Apply(s, op).1) == Failed(Rejected) || Reported(fault, Apply(s, op).1) == Failed(Unavailable)
    ensures Performed(s, fault, op).accounts == s.accounts
  {
    if fault.None? { FailuresChangeNoAccount(s, op); }
  }
}
