/** The profile store and the refresh credentials beside it: `ProfileStore`, `CredentialStore`, the
    CLI's profile update, login, logout and token refresh. Storage succeeds. */
module Profiles {
  import opened Text
  import opened Versions

  const CONFIG_FORMAT_VERSION := 1

  /** What a credential is filed under; the source digests these three. */
  datatype Identity = Identity(endpoint: string, issuer: string, clientId: string)

  /** A connection URL; a managed one carries its own client authentication. */
  datatype Connection = Connection(identity: Identity, root: string, authentication: Option<string>)

  predicate Human(c: Connection) { c.authentication.None? }

  datatype Config = Config(formatVersion: nat, defaultProfile: string, profiles: map<string, Connection>)

  predicate ValidName(name: string) {
    var lower := c => 'a' <= c <= 'z' || '0' <= c <= '9';
    1 <= |name| <= 63 && lower(name[0]) && forall i :: 0 <= i < |name| ==> lower(name[i]) || name[i] == '-'
  }

  predicate ValidConfig(config: Config) {
    && config.formatVersion == CONFIG_FORMAT_VERSION
    && config.profiles != map[]
    && config.defaultProfile in config.profiles
    && forall name :: name in config.profiles ==> ValidName(name)
  }

  // ---------- The store's operations on what the file holds ----------

  function Load(file: Option<Config>): Result<Option<Config>> {
    if file.Some? && !ValidConfig(file.value) then Err(Unavailable) else Ok(file)
  }

  function Required(file: Option<Config>): Result<Config> {
    match Load(file)
    case Err(kind) => Err(kind)
    case Ok(None) => Err(InvalidRequest)
    case Ok(Some(config)) => Ok(config)
  }

  function AddTo(file: Option<Config>, name: string, connection: Connection): Result<Config> {
    if !ValidName(name) then Err(InvalidRequest) else
      match Load(file)
      case Err(kind) => Err(kind)
      case Ok(loaded) =>
        var config := if loaded.Some? then loaded.value else Config(CONFIG_FORMAT_VERSION, name, map[]);
        if name in config.profiles then Err(InvalidRequest)
        else Ok(config.(profiles := config.profiles[name := connection]))
  }

  function UpdateIn(file: Option<Config>, name: string, connection: Connection): Result<Config> {
    if !ValidName(name) then Err(InvalidRequest) else
      match Required(file)
      case Err(kind) => Err(kind)
      case Ok(config) =>
        if name !in config.profiles then Err(InvalidRequest)
        else Ok(config.(profiles := config.profiles[name := connection]))
  }

  function DefaultIn(file: Option<Config>, name: string): Result<Config> {
    if !ValidName(name) then Err(InvalidRequest) else
      match Required(file)
      case Err(kind) => Err(kind)
      case Ok(config) =>
        if name !in config.profiles then Err(InvalidRequest) else Ok(config.(defaultProfile := name))
  }

  function ConnectionIn(file: Option<Config>, name: Option<string>): Result<Connection> {
    if name.Some? && !ValidName(name.value) then Err(InvalidRequest) else
      match Required(file)
      case Err(kind) => Err(kind)
      case Ok(config) =>
        var selected := if name.Some? then name.value else config.defaultProfile;
        if selected in config.profiles then Ok(config.profiles[selected]) else Err(InvalidRequest)
  }

  /** Some human profile other than the excluded name has the identity. */
  predicate OtherHuman(config: Config, excluded: string, identity: Identity) {
    exists name :: name in config.profiles && name != excluded
                   && Human(config.profiles[name]) && config.profiles[name].identity == identity
  }

  predicate SameHumanIdentity(first: Connection, second: Connection) {
    Human(second) && first.identity == second.identity
  }

  /** The stored configuration is one `load` accepts, so the default names a stored profile. */
  predicate Sound(file: Option<Config>) { file.Some? ==> ValidConfig(file.value) }

  /** Adding, updating and choosing the default keep the file loadable, change one profile or the
      default and nothing else, and are read back as written. */
  lemma WritesAreReadBack(file: Option<Config>, name: string, connection: Connection, other: string)
    ensures var added := AddTo(file, name, connection);
            added.Ok? ==> Sound(Some(added.value)) && ConnectionIn(Some(added.value), Some(name)) == Ok(connection)
                          && ConnectionIn(file, Some(name)) == Err(InvalidRequest)
    ensures var added := AddTo(file, name, connection);
            added.Ok? && file.Some? ==> ConnectionIn(Some(added.value), None) == ConnectionIn(file, None)
    ensures var added := AddTo(file, name, connection);
            added.Ok? && file.None? ==> ConnectionIn(Some(added.value), None) == Ok(connection)
    ensures var updated := UpdateIn(file, name, connection);
            updated.Ok? ==> Sound(Some(updated.value)) && ConnectionIn(Some(updated.value), Some(name)) == Ok(connection)
                            && ConnectionIn(file, Some(name)).Ok?
    ensures other != name ==>
              && (AddTo(file, name, connection).Ok? ==>
                    ConnectionIn(Some(AddTo(file, name, connection).value), Some(other)) == ConnectionIn(file, Some(other)))
              && (UpdateIn(file, name, connection).Ok? ==>
                    ConnectionIn(Some(UpdateIn(file, name, connection).value), Some(other)) == ConnectionIn(file, Some(other)))
    ensures var chosen := DefaultIn(file, name);
            chosen.Ok? ==> Sound(Some(chosen.value)) && ConnectionIn(Some(chosen.value), None) == ConnectionIn(file, Some(name))
                           && ConnectionIn(Some(chosen.value), Some(other)) == ConnectionIn(file, Some(other))
  {
    var added := AddTo(file, name, connection);
    if added.Ok? { assert name in added.value.profiles; }
    var updated := UpdateIn(file, name, connection);
    if updated.Ok? { assert name in updated.value.profiles; }
  }

  class ProfileStore {
    var file: Option<Config>

    constructor ()
      ensures file == None
    {
      file := None;
    }

    method Add(name: string, connection: Connection) returns (r: Result<()>)
      modifies this
      ensures match AddTo(old(file), name, connection)
              case Ok(config) => r == Ok(()) && file == Some(config)
              case Err(kind) => r == Err(kind) && file == old(file)
    {
      if !ValidName(name) { return Err(InvalidRequest); }
      if file.Some? && !ValidConfig(file.value) { return Err(Unavailable); }
      var config := if file.Some? then file.value else Config(CONFIG_FORMAT_VERSION, name, map[]);
      if name in config.profiles { return Err(InvalidRequest); }
      config := config.(profiles := config.profiles[name := connection]);
      file := Some(config);
      return Ok(());
    }

    method Update(name: string, connection: Connection) returns (r: Result<()>)
      modifies this
      ensures match UpdateIn(old(file), name, connection)
              case Ok(config) => r == Ok(()) && file == Some(config)
              case Err(kind) => r == Err(kind) && file == old(file)
    {
      if !ValidName(name) { return Err(InvalidRequest); }
      var config := Required(file);
      if config.Err? { return Err(config.kind); }
      if name !in config.value.profiles { return Err(InvalidRequest); }
      file := Some(config.value.(profiles := config.value.profiles[name := connection]));
      return Ok(());
    }

    method SetDefault(name: string) returns (r: Result<()>)
      modifies this
      ensures match DefaultIn(old(file), name)
              case Ok(config) => r == Ok(()) && file == Some(config)
              case Err(kind) => r == Err(kind) && file == old(file)
    {
      if !ValidName(name) { return Err(InvalidRequest); }
      var config := Required(file);
      if config.Err? { return Err(config.kind); }
      if name !in config.value.profiles { return Err(InvalidRequest); }
      file := Some(config.value.(defaultProfile := name));
      return Ok(());
    }

    /** The search over the other profiles, stopping at the first that shares the identity. */
    method ContainsOtherHumanIdentity(excluded: string, connection: Connection) returns (r: Result<bool>)
      ensures match Required(file)
              case Ok(config) => r == Ok(OtherHuman(config, excluded, connection.identity))
              case Err(kind) => r == Err(kind)
    {
      var required := Required(file);
      if required.Err? { return Err(required.kind); }
      var profiles := required.value.profiles;
      var rest := profiles.Keys;
      while rest != {}
        invariant rest <= profiles.Keys
        invariant forall name :: name in profiles && name !in rest ==>
                    name == excluded || !Human(profiles[name]) || profiles[name].identity != connection.identity
        decreases |rest|
      {
        var name :| name in rest;
        rest := rest - {name};
        if name == excluded { continue; }
        if Human(profiles[name]) && profiles[name].identity == connection.identity {
          return Ok(true);
        }
      }
      return Ok(false);
    }
  }

  class CredentialStore {
    var held: map<Identity, string>

    constructor ()
      ensures held == map[]
    {
      held := map[];
    }

    method Store(identity: Identity, credential: string)
      modifies this
      ensures held == old(held)[identity := credential]
    {
      held := held[identity := credential];
    }

    method Delete(identity: Identity)
      modifies this
      ensures held == old(held) - {identity}
    {
      held := held - {identity};
    }
  }

  // ---------- Commands over both stores ----------

  datatype State = State(file: Option<Config>, held: map<Identity, string>)

  /** What the identity provider answers a refresh with. */
  datatype Refresh = Rotated(credential: string) | Unrotated | Rejected | Failed

  datatype Command =
    | Add(name: string, connection: Connection)
    | Update(name: string, replacement: Option<Connection>)
    | SetDefault(name: string)
    | Login(profile: Option<string>, issued: Option<string>)
    | Logout(profile: Option<string>)
    | Access(profile: Option<string>, refresh: Refresh)

  function Written(s: State, config: Result<Config>): State {
    if config.Ok? then s.(file := Some(config.value)) else s
  }

  /** Whether an update deletes the credential of the profile's present connection. */
  predicate Deletes(s: State, name: string, current: Connection, replacement: Connection) {
    Human(current) && !SameHumanIdentity(current, replacement)
    && Required(s.file).Ok? && !OtherHuman(Required(s.file).value, name, current.identity)
  }

  function Apply(s: State, command: Command): State {
    match command
    case Add(name, connection) => Written(s, AddTo(s.file, name, connection))
    case Update(name, replacement) => (
      match ConnectionIn(s.file, Some(name))
      case Err(_) => s
      case Ok(current) =>
        if replacement.None? then s else
          var kept := if Deletes(s, name, current, replacement.value) then s.held - {current.identity} else s.held;
          Written(s.(held := kept), UpdateIn(s.file, name, replacement.value)))
    case SetDefault(name) => Written(s, DefaultIn(s.file, name))
    case Login(profile, issued) => (
      match ConnectionIn(s.file, profile)
      case Err(_) => s
      case Ok(c) => if Human(c) && issued.Some? then s.(held := s.held[c.identity := issued.value]) else s)
    case Logout(profile) => (
      match ConnectionIn(s.file, profile)
      case Err(_) => s
      case Ok(c) => if Human(c) then s.(held := s.held - {c.identity}) else s)
    case Access(profile, refresh) => (
      match ConnectionIn(s.file, profile)
      case Err(_) => s
      case Ok(c) =>
        if !Human(c) || c.identity !in s.held then s
        else if refresh.Rotated? then s.(held := s.held[c.identity := refresh.credential])
        else if refresh.Rejected? then s.(held := s.held - {c.identity})
        else s)
  }

  /** The `Update` arm of `manage_profile`: the credential goes before the profile changes. */
  method ManageUpdate(profiles: ProfileStore, credentials: CredentialStore, name: string, replacement: Option<Connection>)
    returns (r: Result<()>)
    modifies profiles, credentials
    ensures State(profiles.file, credentials.held)
            == Apply(State(old(profiles.file), old(credentials.held)), Update(name, replacement))
    ensures r.Ok? <==> ConnectionIn(old(profiles.file), Some(name)).Ok?
  {
    var current := ConnectionIn(profiles.file, Some(name));
    if current.Err? { return Err(current.kind); }
    if replacement.None? { return Ok(()); }
    if Human(current.value) && !SameHumanIdentity(current.value, replacement.value) {
      var other := profiles.ContainsOtherHumanIdentity(name, current.value);
      if other == Ok(false) { credentials.Delete(current.value.identity); }
    }
    r := profiles.Update(name, replacement.value);
  }

  /** Storing what `login` obtained, deleting on `logout`. */
  method FinishLogin(profiles: ProfileStore, credentials: CredentialStore, profile: Option<string>, issued: Option<string>)
    modifies credentials
    ensures State(profiles.file, credentials.held)
            == Apply(State(old(profiles.file), old(credentials.held)), Login(profile, issued))
  {
    var connection := ConnectionIn(profiles.file, profile);
    if connection.Err? || !Human(connection.value) || issued.None? { return; }
    credentials.Store(connection.value.identity, issued.value);
  }

  method FinishLogout(profiles: ProfileStore, credentials: CredentialStore, profile: Option<string>)
    modifies credentials
    ensures State(profiles.file, credentials.held)
            == Apply(State(old(profiles.file), old(credentials.held)), Logout(profile))
  {
    var connection := ConnectionIn(profiles.file, profile);
    if connection.Err? || !Human(connection.value) { return; }
    credentials.Delete(connection.value.identity);
  }

  method UseCredential(profiles: ProfileStore, credentials: CredentialStore, profile: Option<string>, refresh: Refresh)
    modifies credentials
    ensures State(profiles.file, credentials.held)
            == Apply(State(old(profiles.file), old(credentials.held)), Access(profile, refresh))
  {
    var connection := ConnectionIn(profiles.file, profile);
    if connection.Err? || !Human(connection.value) || connection.value.identity !in credentials.held { return; }
    match refresh {
      case Rejected => credentials.Delete(connection.value.identity);
      case Rotated(credential) => credentials.Store(connection.value.identity, credential);
      case Unrotated =>
      case Failed =>
    }
  }

  // ---------- What each command does ----------

  /** A name is one to 63 small letters, digits and dashes, and does not start with a dash. */
  lemma ValidNameMeans(name: string)
    ensures ValidName(name) <==>
            && 0 < |name| < 64 && name[0] != '-'
            && forall i :: 0 <= i < |name| ==> name[i] == '-' || 97 <= name[i] as int <= 122 || 48 <= name[i] as int <= 57
  {
  }

  /** What `load` refuses, condition by condition. */
  ghost predicate Damaged(config: Config) {
    || config.formatVersion != 1
    || config.profiles.Keys == {}
    || config.defaultProfile !in config.profiles.Keys
    || exists name :: name in config.profiles && !ValidName(name)
  }

  /** Exactly when each operation on the profiles fails, and how: a bad name first, then a damaged file,
      then a profile that is missing, or for adding one that is there. */
  lemma StoreErrors(file: Option<Config>, name: string, connection: Connection)
    ensures var failure := if !ValidName(name) then Some(InvalidRequest)
                           else if file.Some? && Damaged(file.value) then Some(Unavailable)
                           else if file.None? || name !in file.value.profiles then Some(InvalidRequest) else None;
            && (if failure.Some? then UpdateIn(file, name, connection) == Err(failure.value)
                                      && DefaultIn(file, name) == Err(failure.value)
                                      && ConnectionIn(file, Some(name)) == Err(failure.value)
                else UpdateIn(file, name, connection).Ok? && DefaultIn(file, name).Ok? && ConnectionIn(file, Some(name)).Ok?)
    ensures var failure := if !ValidName(name) then Some(InvalidRequest)
                           else if file.Some? && Damaged(file.value) then Some(Unavailable)
                           else if file.Some? && name in file.value.profiles then Some(InvalidRequest) else None;
            if failure.Some? then AddTo(file, name, connection) == Err(failure.value) else AddTo(file, name, connection).Ok?
    ensures ConnectionIn(file, None) ==
            if file.None? then Err(InvalidRequest) else if Damaged(file.value) then Err(Unavailable)
            else Ok(file.value.profiles[file.value.defaultProfile])
  {
    if file.Some? { DamagedIsRefused(file.value); }
  }

  lemma DamagedIsRefused(config: Config)
    ensures Damaged(config) <==> !ValidConfig(config)
  {
    assert config.profiles.Keys == {} <==> config.profiles == map[] by {
      if config.profiles.Keys == {} { assert config.profiles == map[]; }
    }
  }

  /** The credentials held: under this identity the one given, or none, and elsewhere as before. */
  ghost predicate HoldsInstead(before: map<Identity, string>, after: map<Identity, string>, identity: Identity, now: Option<string>) {
    && (now.Some? ==> identity in after && after[identity] == now.value)
    && (now.None? ==> identity !in after)
    && forall other :: other != identity ==> (other in after <==> other in before) && (other in before ==> after[other] == before[other])
  }

  /** Logging in stores what was issued under the identity of the human profile selected, and only
      there; for a managed profile, no profile, or nothing issued, it changes nothing. */
  lemma LoginLaw(s: State, profile: Option<string>, issued: Option<string>)
    ensures var t, c := Apply(s, Login(profile, issued)), ConnectionIn(s.file, profile);
            && t.file == s.file
            && (if c.Ok? && c.value.authentication.None? && issued.Some?
                then HoldsInstead(s.held, t.held, c.value.identity, issued) else t == s)
  {
  }

  /** Logging out forgets that credential and no other, and undoes a login that stored a first one. */
  lemma LogoutLaw(s: State, profile: Option<string>, issued: string)
    ensures var t, c := Apply(s, Logout(profile)), ConnectionIn(s.file, profile);
            && t.file == s.file
            && (if c.Ok? && c.value.authentication.None? then HoldsInstead(s.held, t.held, c.value.identity, None) else t == s)
            && Apply(Apply(s, Login(profile, Some(issued))), Logout(profile)) == t
  {
    var c := ConnectionIn(s.file, profile);
    if c.Ok? && Human(c.value) {
      var identity := c.value.identity;
      assert s.held[identity := issued] - {identity} == s.held - {identity};
    }
  }

  /** Using a stored credential replaces it when it is rotated, forgets it when it is rejected, and
      otherwise, or where none is stored, changes nothing. */
  lemma AccessLaw(s: State, profile: Option<string>, refresh: Refresh)
    ensures var t, c := Apply(s, Access(profile, refresh)), ConnectionIn(s.file, profile);
            var used := c.Ok? && c.value.authentication.None? && c.value.identity in s.held;
            && t.file == s.file
            && (used && refresh.Rotated? ==> HoldsInstead(s.held, t.held, c.value.identity, Some(refresh.credential)))
            && (used && refresh.Rejected? ==> HoldsInstead(s.held, t.held, c.value.identity, None))
            && (!used || refresh.Unrotated? || refresh.Failed? ==> t == s)
  {
  }

  /** An update forgets the old credential exactly when the old profile was human, the new one is not the
      same human identity, and no other human profile has it; it touches no other credential. */
  lemma UpdateLaw(s: State, name: string, replacement: Connection)
    requires Sound(s.file) && ConnectionIn(s.file, Some(name)).Ok?
    ensures var t, was := Apply(s, Update(name, Some(replacement))), ConnectionIn(s.file, Some(name)).value;
            var shared := exists other :: other in s.file.value.profiles && other != name
                            && s.file.value.profiles[other].authentication.None?
                            && s.file.value.profiles[other].identity == was.identity;
            var kept := replacement.authentication.None? && replacement.identity == was.identity;
            if was.authentication.None? && !kept && !shared
            then HoldsInstead(s.held, t.held, was.identity, None) else t.held == s.held
  {
  }

  // ---------- Over every run ----------

  /** Some human profile has the identity. */
  predicate Owned(file: Option<Config>, identity: Identity) {
    file.Some? && exists name :: name in file.value.profiles
                                 && Human(file.value.profiles[name]) && file.value.profiles[name].identity == identity
  }

  predicate Inv(s: State) { Sound(s.file) && forall identity :: identity in s.held ==> Owned(s.file, identity) }

  function RunAll(s: State, commands: seq<Command>): State
    decreases commands
  {
    if commands == [] then s else RunAll(Apply(s, commands[0]), commands[1..])
  }

  /** A profile stays the owner of its identity when another name is written. */
  lemma OwnedAfterWrite(config: Config, name: string, connection: Connection, identity: Identity)
    ensures Owned(Some(config.(profiles := config.profiles[name := connection])), identity) <==>
            OtherHuman(config, name, identity) || (Human(connection) && connection.identity == identity)
  {
    var after := config.profiles[name := connection];
    if OtherHuman(config, name, identity) {
      var owner :| owner in config.profiles && owner != name
                   && Human(config.profiles[owner]) && config.profiles[owner].identity == identity;
      assert owner in after;
    }
    if Human(connection) && connection.identity == identity { assert name in after && after[name] == connection; }
  }

  lemma OwnedIsOtherOrOwn(config: Config, name: string, identity: Identity)
    requires name in config.profiles
    ensures Owned(Some(config), identity) <==>
            OtherHuman(config, name, identity) || (Human(config.profiles[name]) && config.profiles[name].identity == identity)
  {
  }

  /** An update keeps exactly the credentials some human profile still owns afterwards: it never
      deletes one another human profile shares, and leaves none without an owner. */
  lemma UpdateKeepsExactlyTheOwned(s: State, name: string, replacement: Connection)
    requires Inv(s) && ConnectionIn(s.file, Some(name)).Ok?
    ensures var t := Apply(s, Update(name, Some(replacement)));
            && ConnectionIn(t.file, Some(name)) == Ok(replacement)
            && t.held == map identity | identity in s.held && Owned(t.file, identity) :: s.held[identity]
  {
    var config := s.file.value;
    var current := config.profiles[name];
    var t := Apply(s, Update(name, Some(replacement)));
    assert t.file == Some(config.(profiles := config.profiles[name := replacement]));
    forall identity | identity in s.held ensures identity in t.held <==> Owned(t.file, identity) {
      OwnedIsOtherOrOwn(config, name, identity);
      OwnedAfterWrite(config, name, replacement, identity);
    }
  }

  lemma AddKeepsOwners(s: State, name: string, connection: Connection)
    requires Inv(s) && AddTo(s.file, name, connection).Ok?
    ensures Inv(Apply(s, Add(name, connection)))
  {
    WritesAreReadBack(s.file, name, connection, name);
    forall identity | identity in s.held ensures Owned(Some(AddTo(s.file, name, connection).value), identity) {
      OwnedAfterWrite(s.file.value, name, connection, identity);
    }
  }

  lemma ConnectionIsStored(file: Option<Config>, profile: Option<string>)
    requires ConnectionIn(file, profile).Ok? && Human(ConnectionIn(file, profile).value)
    ensures Owned(file, ConnectionIn(file, profile).value.identity)
  {
    var selected := if profile.Some? then profile.value else file.value.defaultProfile;
    assert file.value.profiles[selected] == ConnectionIn(file, profile).value;
  }

  lemma ApplyKeepsInv(s: State, command: Command)
    requires Inv(s)
    ensures Inv(Apply(s, command))
  {
    match command
    case Add(name, connection) =>
      if AddTo(s.file, name, connection).Ok? { AddKeepsOwners(s, name, connection); }
    case Update(name, replacement) =>
      if ConnectionIn(s.file, Some(name)).Ok? && replacement.Some? {
        UpdateKeepsExactlyTheOwned(s, name, replacement.value);
      }
    case SetDefault(name) =>
    case Login(profile, issued) =>
      if ConnectionIn(s.file, profile).Ok? && Human(ConnectionIn(s.file, profile).value) { ConnectionIsStored(s.file, profile); }
    case Logout(profile) =>
    case Access(profile, refresh) =>
  }

  /** Over every run the default names a stored profile and every stored credential belongs to
      some human profile. */
  lemma {:induction false} RunKeepsInv(s: State, commands: seq<Command>)
    requires Inv(s)
    ensures Inv(RunAll(s, commands))
    decreases commands
  {
    if commands != [] {
      ApplyKeepsInv(s, commands[0]);
      RunKeepsInv(Apply(s, commands[0]), commands[1..]);
    }
  }

  lemma FreshRunsAreSound(commands: seq<Command>)
    ensures var s := RunAll(State(None, map[]), commands);
            && (s.file.Some? ==> s.file.value.defaultProfile in s.file.value.profiles && ConnectionIn(s.file, None).Ok?)
            && forall identity :: identity in s.held ==> Owned(s.file, identity)
  {
    RunKeepsInv(State(None, map[]), commands);
  }
}
