/** The in-memory identity provider: accounts, credentials and scripted faults. Taking a fault and
    applying the operation are two separate critical sections, so concurrent calls interleave
    between them. */
module Identity {
  import opened Text

  // ---------- Identifiers ----------

  function Digit(n: nat): char
    requires n < 10
  {
    (('0' as int) + n) as char
  }

  /** `u64::to_string`. */
  function Decimal(n: nat): (r: string)
    ensures r != [] && forall i :: 0 <= i < |r| ==> '0' <= r[i] <= '9'
  {
    if n < 10 then [Digit(n)] else Decimal(n / 10) + [Digit(n % 10)]
  }

  lemma {:induction false} DecimalInjective(m: nat, n: nat)
    requires Decimal(m) == Decimal(n)
    ensures m == n
    decreases m
  {
    var a, b := Decimal(m), Decimal(n);
    assert a[|a| - 1] == Digit(m % 10) && b[|b| - 1] == Digit(n % 10);
    if m >= 10 && n >= 10 {
      assert Decimal(m / 10) == a[..|a| - 1] && Decimal(n / 10) == b[..|b| - 1];
      DecimalInjective(m / 10, n / 10);
    }
  }

  function SecretText(account: string, generation: nat): string {
    "fake-secret-" + (account + "-" + Decimal(generation))
  }

  lemma DashedInjective(a: string, b: string, c: string, d: string)
    requires '-' !in a && '-' !in c && a + "-" + b == c + "-" + d
    ensures a == c && b == d
  {
    var s := a + "-" + b;
    assert s[..|a|] == a && s[..|c|] == c;
    FindIs(s, '-', |a|);
    FindIs(s, '-', |c|);
    assert s[|a| + 1..] == b && s[|c| + 1..] == d;
  }

  lemma PrefixInjective(p: string, a: string, b: string)
    requires p + a == p + b
    ensures a == b
  {
    assert a == (p + a)[|p|..] && b == (p + b)[|p|..];
  }

  lemma SecretTextInjective(m: nat, g: nat, n: nat, h: nat)
    requires SecretText(Decimal(m), g) == SecretText(Decimal(n), h)
    ensures m == n && g == h
  {
    PrefixInjective("fake-secret-", Decimal(m) + "-" + Decimal(g), Decimal(n) + "-" + Decimal(h));
    DashedInjective(Decimal(m), Decimal(g), Decimal(n), Decimal(h));
    DecimalInjective(m, n);
    DecimalInjective(g, h);
  }

  function CredentialText(account: string): string { "fake-credential-" + account }

  // ---------- Accounts and operations ----------

  datatype Account = Account(id: string, username: string, subject: string, credential: string, clientId: string,
                             secret: string, name: Option<string>, connectionId: Option<string>,
                             root: Option<string>, permissions: seq<string>, inBrowseGroup: bool)

  datatype Accounts = Accounts(accounts: map<string, Account>, nextId: nat, browseGroupMissing: bool)

  datatype Grant = Grant(connectionId: string, displayName: string, root: string, permissions: seq<string>)

  datatype Operation =
    | CreateAccount(username: string)
    | GrantAccount(account: string, grant: Grant)
    | AssignBrowseGroup(account: string)
    | RenameAccount(account: string, displayName: string)
    | FindAccount(username: string)
    | FindCredentials(username: string)
    | ReplaceCredential(credential: string)
    | DeleteAccount(account: string)

  datatype Kind = Create | SetGrant | Assign | Rename | FindId | FindCreds | Replace | Delete

  function KindOf(op: Operation): Kind {
    match op
    case CreateAccount(_) => Create
    case GrantAccount(_, _) => SetGrant
    case AssignBrowseGroup(_) => Assign
    case RenameAccount(_, _) => Rename
    case FindAccount(_) => FindId
    case FindCredentials(_) => FindCreds
    case ReplaceCredential(_) => Replace
    case DeleteAccount(_) => Delete
  }

  datatype ProviderError = NotFound | Rejected | Unavailable | Ambiguous | Invalid

  datatype Reply =
    | Provisioned(account: string, subject: string, clientId: string, secret: string)
    | Replaced(clientId: string, secret: string)
    | AccountIs(found: Option<string>)
    | CredentialsAre(credentials: set<string>)
    | Done

  datatype Outcome = Success(reply: Reply) | Failed(error: ProviderError)

  function NewAccount(id: nat, username: string): Account {
    var key := Decimal(id);
    Account(key, username, "fake-subject-" + key, CredentialText(key), "fake-client-" + key,
            SecretText(key, 0), None, None, None, [], false)
  }

  predicate UsernameTaken(s: Accounts, username: string) {
    exists k :: k in s.accounts && s.accounts[k].username == username
  }

  /** The key of an account with the property, when there is one. */
  ghost function Holder(s: Accounts, credential: string): (r: Option<string>)
    ensures r.Some? <==> exists k :: k in s.accounts && s.accounts[k].credential == credential
    ensures r.Some? ==> r.value in s.accounts && s.accounts[r.value].credential == credential
  {
    if k :| k in s.accounts && s.accounts[k].credential == credential then Some(k) else None
  }

  ghost function Named(s: Accounts, username: string): (r: Option<string>)
    ensures r.Some? <==> UsernameTaken(s, username)
    ensures r.Some? ==> r.value in s.accounts && s.accounts[r.value].username == username
  {
    if k :| k in s.accounts && s.accounts[k].username == username then Some(k) else None
  }

  function Updated(s: Accounts, k: string, a: Account): Accounts { s.(accounts := s.accounts[k := a]) }

  /** The account's secret replaced by one of a new generation. */
  function ReplacedAt(s: Accounts, k: string): Accounts
    requires k in s.accounts
  {
    Updated(s.(nextId := s.nextId + 1), k, s.accounts[k].(secret := SecretText(s.accounts[k].id, s.nextId + 1)))
  }

  /** What each operation does to the accounts and answers, applied in full. */
  ghost function Apply(s: Accounts, op: Operation): (Accounts, Outcome) {
    match op
    case CreateAccount(username) =>
      if UsernameTaken(s, username) then (s, Failed(Rejected)) else
        var a := NewAccount(s.nextId + 1, username);
        (s.(nextId := s.nextId + 1, accounts := s.accounts[a.id := a]),
         Success(Provisioned(a.id, a.subject, a.clientId, a.secret)))
    case GrantAccount(account, grant) =>
      if account !in s.accounts then (s, Failed(NotFound)) else
        (Updated(s, account, s.accounts[account].(name := Some(grant.displayName), connectionId := Some(grant.connectionId),
                                                  root := Some(grant.root), permissions := grant.permissions)),
         Success(Done))
    case AssignBrowseGroup(account) =>
      if s.browseGroupMissing || account !in s.accounts then (s, Failed(NotFound))
      else (Updated(s, account, s.accounts[account].(inBrowseGroup := true)), Success(Done))
    case RenameAccount(account, displayName) =>
      if account !in s.accounts then (s, Failed(NotFound))
      else (Updated(s, account, s.accounts[account].(name := Some(displayName))), Success(Done))
    case FindAccount(username) => (s, Success(AccountIs(Named(s, username))))
    case FindCredentials(username) =>
      (s, Success(CredentialsAre(set k | k in s.accounts && s.accounts[k].username == username :: s.accounts[k].credential)))
    case ReplaceCredential(credential) =>
      var s' := s.(nextId := s.nextId + 1);
      (match Holder(s, credential)
       case None => (s', Failed(NotFound))
       case Some(k) =>
         var a := s.accounts[k].(secret := SecretText(s.accounts[k].id, s.nextId + 1));
         (ReplacedAt(s, k), Success(Replaced(a.clientId, a.secret))))
    case DeleteAccount(account) =>
      if account !in s.accounts then (s, Failed(NotFound))
      else (s.(accounts := s.accounts - {account}), Success(Done))
  }

  // ---------- What every operation keeps ----------

  /** One account: its identifiers all derive from its key, which was issued. */
  ghost predicate AccountInv(k: string, a: Account, nextId: nat) {
    && a.id == k && a.credential == CredentialText(k)
    && (exists n :: 1 <= n <= nextId && k == Decimal(n))
    && (exists g :: 0 <= g <= nextId && a.secret == SecretText(k, g))
  }

  ghost predicate Inv(s: Accounts) {
    && (forall k :: k in s.accounts ==> AccountInv(k, s.accounts[k], s.nextId))
    && (forall j, k :: j in s.accounts && k in s.accounts && j != k ==> s.accounts[j].username != s.accounts[k].username)
  }

  lemma AccountInvGrows(k: string, a: Account, nextId: nat)
    requires AccountInv(k, a, nextId)
    ensures AccountInv(k, a, nextId + 1)
  {
    var n :| 1 <= n <= nextId && k == Decimal(n);
    var g :| 0 <= g <= nextId && a.secret == SecretText(k, g);
    assert 1 <= n <= nextId + 1 && 0 <= g <= nextId + 1;
  }

  lemma FreshId(s: Accounts)
    requires Inv(s)
    ensures Decimal(s.nextId + 1) !in s.accounts
  {
    if Decimal(s.nextId + 1) in s.accounts {
      var n :| 1 <= n <= s.nextId && Decimal(s.nextId + 1) == Decimal(n);
      DecimalInjective(s.nextId + 1, n);
    }
  }

  lemma BumpKeepsInv(s: Accounts)
    requires Inv(s)
    ensures Inv(s.(nextId := s.nextId + 1))
  {
    forall k | k in s.accounts ensures AccountInv(k, s.accounts[k], s.nextId + 1) {
      AccountInvGrows(k, s.accounts[k], s.nextId);
    }
  }

  lemma UpdateKeepsInv(s: Accounts, k: string, a: Account)
    requires Inv(s) && AccountInv(k, a, s.nextId)
    requires forall j :: j in s.accounts && j != k ==> s.accounts[j].username != a.username
    ensures Inv(Updated(s, k, a))
  {
  }

  lemma CreateKeepsInv(s: Accounts, username: string)
    requires Inv(s) && !UsernameTaken(s, username)
    ensures Inv(Apply(s, CreateAccount(username)).0)
  {
    var a := NewAccount(s.nextId + 1, username);
    var s1 := s.(nextId := s.nextId + 1);
    BumpKeepsInv(s);
    assert a.id == Decimal(s1.nextId) && a.secret == SecretText(a.id, 0);
    UpdateKeepsInv(s1, a.id, a);
    assert Apply(s, CreateAccount(username)).0 == Updated(s1, a.id, a);
  }

  lemma ReplaceKeepsInv(s: Accounts, credential: string)
    requires Inv(s)
    ensures Inv(Apply(s, ReplaceCredential(credential)).0)
  {
    BumpKeepsInv(s);
    if Holder(s, credential).Some? { ReplacedAtKeepsInv(s, Holder(s, credential).value); }
  }

  lemma ReplacedAtKeepsInv(s: Accounts, k: string)
    requires Inv(s) && k in s.accounts
    ensures Inv(ReplacedAt(s, k))
  {
    BumpKeepsInv(s);
    var s1 := s.(nextId := s.nextId + 1);
    assert AccountInv(k, s1.accounts[k], s1.nextId);
    var a := s1.accounts[k].(secret := SecretText(k, s1.nextId));
    assert AccountInv(k, a, s1.nextId);
    UpdateKeepsInv(s1, k, a);
  }

  lemma ApplyKeepsInv(s: Accounts, op: Operation)
    requires Inv(s)
    ensures Inv(Apply(s, op).0)
  {
    match op
    case CreateAccount(username) => if !UsernameTaken(s, username) { CreateKeepsInv(s, username); }
    case ReplaceCredential(credential) => ReplaceKeepsInv(s, credential);
    case FindAccount(_) =>
    case FindCredentials(_) =>
    case DeleteAccount(account) =>
    case _ =>
      var k := op.account;
      if k in s.accounts && Apply(s, op).0 != s {
        assert AccountInv(k, s.accounts[k], s.nextId);
        UpdateKeepsInv(s, k, Apply(s, op).0.accounts[k]);
      }
  }

  /** Identifiers are unique across accounts: id, username and credential each name at most one. */
  lemma IdentifiersAreUnique(s: Accounts, j: string, k: string)
    requires Inv(s) && j in s.accounts && k in s.accounts && j != k
    ensures s.accounts[j].id != s.accounts[k].id
    ensures s.accounts[j].username != s.accounts[k].username
    ensures s.accounts[j].credential != s.accounts[k].credential
    ensures s.accounts[j].secret != s.accounts[k].secret
  {
    var a, b := s.accounts[j], s.accounts[k];
    assert AccountInv(j, a, s.nextId) && AccountInv(k, b, s.nextId);
    if a.credential == b.credential { PrefixInjective("fake-credential-", j, k); }
    var m :| 1 <= m <= s.nextId && j == Decimal(m);
    var n :| 1 <= n <= s.nextId && k == Decimal(n);
    var g :| 0 <= g <= s.nextId && a.secret == SecretText(j, g);
    var h :| 0 <= h <= s.nextId && b.secret == SecretText(k, h);
    if a.secret == b.secret { SecretTextInjective(m, g, n, h); }
  }

  /** The one account an operation may touch. */
  ghost function Target(s: Accounts, op: Operation): Option<string> {
    match op
    case CreateAccount(_) => Some(Decimal(s.nextId + 1))
    case GrantAccount(account, _) => Some(account)
    case AssignBrowseGroup(account) => Some(account)
    case RenameAccount(account, _) => Some(account)
    case FindAccount(_) => None
    case FindCredentials(_) => None
    case ReplaceCredential(credential) => Holder(s, credential)
    case DeleteAccount(account) => Some(account)
  }

  /** Every other account is left exactly as it was, and a failure changes no account. */
  lemma OnlyTheTargetIsTouched(s: Accounts, op: Operation, k: string)
    requires Target(s, op) != Some(k)
    ensures k in Apply(s, op).0.accounts <==> k in s.accounts
    ensures k in s.accounts ==> Apply(s, op).0.accounts[k] == s.accounts[k]
  {
  }

  lemma FailuresChangeNoAccount(s: Accounts, op: Operation)
    requires Apply(s, op).1.Failed?
    ensures Apply(s, op).0.accounts == s.accounts
  {
  }

  /** Of an account that stays, only a replacement of its own credential changes the secret, and
      nothing changes its identifiers. */
  lemma CredentialsChangeOnlyOnReplacement(s: Accounts, op: Operation, k: string)
    requires Inv(s) && k in s.accounts && k in Apply(s, op).0.accounts
    ensures var a, b := s.accounts[k], Apply(s, op).0.accounts[k];
            && b.id == a.id && b.username == a.username && b.credential == a.credential && b.clientId == a.clientId
            && (b.secret != a.secret ==> op == ReplaceCredential(a.credential))
  {
    FreshId(s);
    if Target(s, op) != Some(k) {
      OnlyTheTargetIsTouched(s, op, k);
    } else {
      TargetKeepsIdentifiers(s, op, k);
    }
  }

  lemma TargetKeepsIdentifiers(s: Accounts, op: Operation, k: string)
    requires k in s.accounts && k in Apply(s, op).0.accounts && Target(s, op) == Some(k) && !op.CreateAccount?
    ensures var a, b := s.accounts[k], Apply(s, op).0.accounts[k];
            && b.id == a.id && b.username == a.username && b.credential == a.credential && b.clientId == a.clientId
            && (b.secret != a.secret ==> op == ReplaceCredential(a.credential))
  {
  }
}
