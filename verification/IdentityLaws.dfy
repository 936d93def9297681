/** What each operation of the identity provider does, as a caller sees it: what is stored afterwards,
    what later operations answer, and exactly when each fails and how. */
module IdentityLaws {
  import opened Text
  import opened Identity

  /** The accounts after an operation, and what it answered. */
  ghost function After(s: Accounts, op: Operation): Accounts { Apply(s, op).0 }
  ghost function Answer(s: Accounts, op: Operation): Outcome { Apply(s, op).1 }

  /** Only the four fields a grant sets may differ. */
  predicate SameButGrant(a: Account, b: Account) {
    && a.id == b.id && a.username == b.username && a.subject == b.subject && a.credential == b.credential
    && a.clientId == b.clientId && a.secret == b.secret && a.inBrowseGroup == b.inBrowseGroup
  }

  predicate SameGrant(a: Account, b: Account) {
    a.connectionId == b.connectionId && a.root == b.root && a.permissions == b.permissions
  }

  /** Nothing but this account has changed. */
  ghost predicate OnlyAt(s: Accounts, t: Accounts, k: string) {
    && k in s.accounts && k in t.accounts && t.accounts.Keys == s.accounts.Keys
    && t.nextId == s.nextId && t.browseGroupMissing == s.browseGroupMissing
    && forall j :: j in s.accounts && j != k ==> t.accounts[j] == s.accounts[j]
  }

  /** A grant stores exactly the four things given; it fails, as not found, exactly for no account. */
  lemma GrantLaw(s: Accounts, account: string, grant: Grant)
    ensures var op := GrantAccount(account, grant);
            if account in s.accounts then
              && Answer(s, op) == Success(Done)
              && OnlyAt(s, After(s, op), account)
              && var a := After(s, op).accounts[account];
                 && SameButGrant(a, s.accounts[account])
                 && a.name == Some(grant.displayName) && a.connectionId == Some(grant.connectionId)
                 && a.root == Some(grant.root) && a.permissions == grant.permissions
            else Answer(s, op) == Failed(NotFound) && After(s, op) == s
  {
  }

  /** Granting again overrides: only the last grant shows. */
  lemma LastGrantWins(s: Accounts, account: string, first: Grant, second: Grant)
    ensures After(After(s, GrantAccount(account, first)), GrantAccount(account, second)) == After(s, GrantAccount(account, second))
  {
    var t := After(After(s, GrantAccount(account, first)), GrantAccount(account, second));
    if account in s.accounts {
      assert t.accounts == After(s, GrantAccount(account, second)).accounts;
    }
  }

  /** A rename stores the name given and nothing else. */
  lemma RenameLaw(s: Accounts, account: string, displayName: string)
    ensures var op := RenameAccount(account, displayName);
            if account in s.accounts then
              && Answer(s, op) == Success(Done)
              && OnlyAt(s, After(s, op), account)
              && var a, b := After(s, op).accounts[account], s.accounts[account];
                 SameButGrant(a, b) && SameGrant(a, b) && a.name == Some(displayName)
            else Answer(s, op) == Failed(NotFound) && After(s, op) == s
  {
  }

  /** An assignment puts the account in the browsing group; without the group, or without the account,
      it is not found. */
  lemma AssignLaw(s: Accounts, account: string)
    ensures var op := AssignBrowseGroup(account);
            if account in s.accounts && !s.browseGroupMissing then
              && Answer(s, op) == Success(Done)
              && OnlyAt(s, After(s, op), account)
              && var a, b := After(s, op).accounts[account], s.accounts[account];
                 a.inBrowseGroup && SameGrant(a, b) && a.name == b.name && SameButGrant(a.(inBrowseGroup := b.inBrowseGroup), b)
            else Answer(s, op) == Failed(NotFound) && After(s, op) == s
  {
  }

  /** A deleted account is gone, and only it; deleting it again is not found. */
  lemma DeleteLaw(s: Accounts, account: string)
    ensures var op := DeleteAccount(account);
            var t := After(s, op);
            && account !in t.accounts
            && Answer(t, op) == Failed(NotFound) && After(t, op) == t
            && (if account in s.accounts then Answer(s, op) == Success(Done) && t.nextId == s.nextId
                                              && t.browseGroupMissing == s.browseGroupMissing
                else Answer(s, op) == Failed(NotFound) && t == s)
            && t.accounts.Keys == s.accounts.Keys - {account}
            && forall k :: k in t.accounts ==> t.accounts[k] == s.accounts[k]
  {
  }

  /** The account just provisioned: as answered, without a grant and outside the group. */
  ghost predicate NewlyStored(s: Accounts, t: Accounts, username: string, reply: Reply) {
    && reply.Provisioned?
    && var Provisioned(id, subject, clientId, secret) := reply;
       && id !in s.accounts && t.accounts.Keys == s.accounts.Keys + {id}
       && (forall k :: k in s.accounts ==> t.accounts[k] == s.accounts[k])
       && t.browseGroupMissing == s.browseGroupMissing && t.nextId == s.nextId + 1
       && var a := t.accounts[id];
          && a.id == id && a.username == username && a.subject == subject && a.clientId == clientId && a.secret == secret
          && a.name == None && a.connectionId == None && a.root == None && a.permissions == [] && !a.inBrowseGroup
  }

  /** Creation is rejected exactly when the username is in use; otherwise there is one more account. */
  lemma CreateLaw(s: Accounts, username: string)
    requires Inv(s)
    ensures var op := CreateAccount(username);
            if exists k :: k in s.accounts && s.accounts[k].username == username
            then Answer(s, op) == Failed(Rejected) && After(s, op) == s
            else Answer(s, op).Success? && NewlyStored(s, After(s, op), username, Answer(s, op).reply)
  {
    FreshId(s);
    if !UsernameTaken(s, username) { CreatedIsStored(s, username); }
  }

  lemma CreatedIsStored(s: Accounts, username: string)
    requires !UsernameTaken(s, username) && Decimal(s.nextId + 1) !in s.accounts
    ensures Answer(s, CreateAccount(username)).Success?
    ensures NewlyStored(s, After(s, CreateAccount(username)), username, Answer(s, CreateAccount(username)).reply)
  {
    var a := NewAccount(s.nextId + 1, username);
    AddedAccount(s, a);
    assert After(s, CreateAccount(username)) == s.(nextId := s.nextId + 1, accounts := s.accounts[a.id := a]);
  }

  lemma AddedAccount(s: Accounts, a: Account)
    requires a.id !in s.accounts
    requires a.name == None && a.connectionId == None && a.root == None && a.permissions == [] && !a.inBrowseGroup
    ensures NewlyStored(s, s.(nextId := s.nextId + 1, accounts := s.accounts[a.id := a]), a.username,
                        Provisioned(a.id, a.subject, a.clientId, a.secret))
  {
  }

  lemma StoredIsFound(t: Accounts, id: string, username: string)
    requires Inv(t) && id in t.accounts && t.accounts[id].username == username
    ensures Answer(t, FindAccount(username)) == Success(AccountIs(Some(id)))
    ensures Answer(t, CreateAccount(username)) == Failed(Rejected)
  {
    assert UsernameTaken(t, username);
    var found := Named(t, username);
    assert found == Some(id);
  }

  /** A created account is found by its name, and the name cannot be used again. */
  lemma CreatedIsFound(s: Accounts, username: string)
    requires Inv(s) && Answer(s, CreateAccount(username)).Success?
    ensures var t := After(s, CreateAccount(username));
            && Answer(s, CreateAccount(username)).reply.Provisioned?
            && Answer(t, FindAccount(username)) == Success(AccountIs(Some(Answer(s, CreateAccount(username)).reply.account)))
            && Answer(t, CreateAccount(username)) == Failed(Rejected)
  {
    CreateLaw(s, username);
    ApplyKeepsInv(s, CreateAccount(username));
    var t, reply := After(s, CreateAccount(username)), Answer(s, CreateAccount(username)).reply;
    assert NewlyStored(s, t, username, reply);
    StoredIsFound(t, reply.account, username);
  }

  /** The texts issued with an account, each from its number. */
  lemma CreatedTexts(s: Accounts, username: string)
    requires !UsernameTaken(s, username)
    ensures var id := Decimal(s.nextId + 1);
            && Answer(s, CreateAccount(username))
               == Success(Provisioned(id, "fake-subject-" + id, "fake-client-" + id, "fake-secret-" + (id + "-" + Decimal(0))))
            && id in After(s, CreateAccount(username)).accounts
            && After(s, CreateAccount(username)).accounts[id].credential == "fake-credential-" + id
  {
  }

  /** A replacement stores the secret it answers, at the account holding the credential, and changes
      nothing else there or elsewhere; it is not found exactly when no account holds it. */
  lemma ReplaceLaw(s: Accounts, credential: string)
    requires Inv(s)
    ensures var op := ReplaceCredential(credential);
            var t := After(s, op);
            && t.nextId == s.nextId + 1 && t.browseGroupMissing == s.browseGroupMissing
            && (if k :| k in s.accounts && s.accounts[k].credential == credential then
                  && t.accounts.Keys == s.accounts.Keys
                  && (forall j :: j in s.accounts && j != k ==> t.accounts[j] == s.accounts[j])
                  && t.accounts[k].(secret := s.accounts[k].secret) == s.accounts[k]
                  && Answer(s, op) == Success(Replaced(s.accounts[k].clientId, t.accounts[k].secret))
                  && t.accounts[k].secret == "fake-secret-" + (s.accounts[k].id + "-" + Decimal(s.nextId + 1))
                else Answer(s, op) == Failed(NotFound) && t.accounts == s.accounts)
  {
    var holder := Holder(s, credential);
    if holder.Some? {
      forall k | k in s.accounts && s.accounts[k].credential == credential ensures k == holder.value {
        if k != holder.value { IdentifiersAreUnique(s, k, holder.value); }
      }
    }
  }

  /** Looking up by name answers the account there is, or none, and changes nothing. */
  lemma FindLaw(s: Accounts, username: string)
    requires Inv(s)
    ensures After(s, FindAccount(username)) == s && After(s, FindCredentials(username)) == s
    ensures Answer(s, FindAccount(username)).Success? && Answer(s, FindAccount(username)).reply.AccountIs?
    ensures var found := Answer(s, FindAccount(username)).reply.found;
            if found.Some? then found.value in s.accounts && s.accounts[found.value].username == username
            else forall k :: k in s.accounts ==> s.accounts[k].username != username
    ensures Answer(s, FindCredentials(username)).Success? && Answer(s, FindCredentials(username)).reply.CredentialsAre?
    ensures var found := Answer(s, FindCredentials(username)).reply.credentials;
            && (forall k :: k in s.accounts && s.accounts[k].username == username ==> s.accounts[k].credential in found)
            && (forall c :: c in found ==> exists k :: k in s.accounts && s.accounts[k].username == username && s.accounts[k].credential == c)
  {
  }
}
