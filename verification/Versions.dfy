/** Version selection and the handshake: `status.rs`, and `negotiate` in the client. */
module Versions {
  import opened Text

  datatype ErrorKind =
    | Unauthenticated | PermissionDenied | IncompatibleProtocol | VersionNotServed
    | InvalidRequest | NotFound | Conflict | Unavailable | Internal

  datatype Result<+T> = Ok(value: T) | Err(kind: ErrorKind)

  datatype ProtocolVersion = V5 | V4 | V3

  const ALL: seq<ProtocolVersion> := [V5, V4, V3]
  const LEGACY: ProtocolVersion := V3

  function AsStr(v: ProtocolVersion): string {
    match v
    case V5 => "v5"
    case V4 => "v4"
    case V3 => "v3"
  }

  /** `ProtocolVersion::parse`. */
  function ParseVersion(text: string): Option<ProtocolVersion> {
    FindVersion(ALL, text)
  }

  function FindVersion(versions: seq<ProtocolVersion>, text: string): Option<ProtocolVersion> {
    if versions == [] then None
    else if AsStr(versions[0]) == text then Some(versions[0])
    else FindVersion(versions[1..], text)
  }

  lemma ParseVersionInverts(text: string, v: ProtocolVersion)
    ensures ParseVersion(text) == Some(v) <==> text == AsStr(v)
  {
    assert AsStr(V5)[1] == '5' && AsStr(V4)[1] == '4' && AsStr(V3)[1] == '3';
    assert ALL[1..] == [V4, V3] && [V4, V3][1..] == [V3] && [V3][1..] == [];
    assert FindVersion([V3], text) == if AsStr(V3) == text then Some(V3) else FindVersion([], text);
    assert FindVersion([V4, V3], text) == if AsStr(V4) == text then Some(V4) else FindVersion([V3], text);
  }

  /** What this build speaks, by its texts; `v3` is the version spoken without a handshake. */
  lemma SpokenTexts(text: string)
    ensures ParseVersion(text).Some? <==> text == "v5" || text == "v4" || text == "v3"
    ensures text == "v5" ==> ParseVersion(text) == Some(V5)
    ensures text == "v4" ==> ParseVersion(text) == Some(V4)
    ensures text == "v3" ==> ParseVersion(text) == Some(V3) && AsStr(LEGACY) == text
  {
    ParseVersionInverts(text, V5);
    ParseVersionInverts(text, V4);
    ParseVersionInverts(text, V3);
    if ParseVersion(text).Some? { ParseVersionInverts(text, ParseVersion(text).value); }
  }

  /** One version a service serves, with its announced retirement date if there is one. */
  datatype ServedVersion = ServedVersion(version: string, date: Option<string>)

  datatype ServiceStatus = ServiceStatus(version: ProtocolVersion, date: Option<string>)

  // ---------- Dates are made safe to show ----------

  const DEPRECATION_DATE_LENGTH := 40

  predicate DateChar(c: char) {
    'a' <= c <= 'z' || 'A' <= c <= 'Z' || '0' <= c <= '9' || c == ':' || c == '+' || c == '-' || c == '.'
  }

  /** ASCII letters and digits, `+`, `-`, `.` and `:`, by code. */
  predicate TimestampCode(c: char) {
    var n := c as int;
    97 <= n <= 122 || 65 <= n <= 90 || 48 <= n <= 58 || n == 43 || n == 45 || n == 46
  }

  /** `sanitise_date`: bounded, and only harmless characters; a plausible timestamp is unchanged. */
  function SanitiseDate(date: string): (r: string)
    ensures |r| <= DEPRECATION_DATE_LENGTH
    ensures forall i :: 0 <= i < |r| ==> DateChar(r[i]) || r[i] == '?'
    ensures |r| == if |date| <= 40 then |date| else 40
    ensures forall i :: 0 <= i < |r| ==> r[i] == if TimestampCode(date[i]) then date[i] else '?'
    ensures |date| <= DEPRECATION_DATE_LENGTH && (forall i :: 0 <= i < |date| ==> DateChar(date[i])) ==> r == date
  {
    var kept := if |date| <= DEPRECATION_DATE_LENGTH then date else date[..DEPRECATION_DATE_LENGTH];
    seq(|kept|, i requires 0 <= i < |kept| => if DateChar(kept[i]) then kept[i] else '?')
  }

  // ---------- Selection ----------

  predicate Spoken(entry: ServedVersion) { ParseVersion(entry.version).Some? }

  predicate Candidate(entry: ServedVersion, undated: bool) {
    Spoken(entry) && (undated ==> entry.date.None?)
  }

  /** The first entry this build speaks, looking only at undated entries when asked to. */
  function FirstSpoken(served: seq<ServedVersion>, undated: bool): Option<ServedVersion> {
    if served == [] then None
    else if Candidate(served[0], undated) then Some(served[0])
    else FirstSpoken(served[1..], undated)
  }

  function StatusOf(entry: ServedVersion): ServiceStatus
    requires Spoken(entry)
  {
    ServiceStatus(ParseVersion(entry.version).value,
                  if entry.date.None? then None else Some(SanitiseDate(entry.date.value)))
  }

  lemma FirstSpokenIsFirst(served: seq<ServedVersion>, undated: bool)
    ensures match FirstSpoken(served, undated)
            case None => forall i :: 0 <= i < |served| ==> !Candidate(served[i], undated)
            case Some(entry) =>
              Candidate(entry, undated)
              && exists i :: 0 <= i < |served| && served[i] == entry
                             && forall j :: 0 <= j < i ==> !Candidate(served[j], undated)
  {
    if served != [] && !Candidate(served[0], undated) {
      FirstSpokenIsFirst(served[1..], undated);
      match FirstSpoken(served[1..], undated)
      case None =>
        forall i | 0 <= i < |served| ensures !Candidate(served[i], undated) {
          if i > 0 { assert served[i] == served[1..][i - 1]; }
        }
      case Some(entry) =>
        var i :| 0 <= i < |served[1..]| && served[1..][i] == entry
                 && forall j :: 0 <= j < i ==> !Candidate(served[1..][j], undated);
        assert served[i + 1] == entry;
        forall j | 0 <= j < i + 1 ensures !Candidate(served[j], undated) {
          if j > 0 { assert served[j] == served[1..][j - 1]; }
        }
    }
  }

  function Select(served: seq<ServedVersion>): Result<ServiceStatus> {
    match FirstSpoken(served, true)
    case Some(entry) => (FirstSpokenIsFirst(served, true); Ok(StatusOf(entry)))
    case None =>
      match FirstSpoken(served, false)
      case Some(entry) => (FirstSpokenIsFirst(served, false); Ok(StatusOf(entry)))
      case None => Err(IncompatibleProtocol)
  }

  /** `ServiceStatus::select`: one pass, remembering the first dated candidate. */
  method SelectVersion(served: seq<ServedVersion>) returns (r: Result<ServiceStatus>)
    ensures r == Select(served)
  {
    var deprecated: Option<ServedVersion> := None;
    for i := 0 to |served|
      invariant FirstSpoken(served, true) == FirstSpoken(served[i..], true)
      invariant FirstSpoken(served, false) == if deprecated.Some? then deprecated else FirstSpoken(served[i..], false)
      invariant deprecated.Some? ==> Spoken(deprecated.value)
    {
      assert served[i..][0] == served[i] && served[i..][1..] == served[i + 1..];
      var version := ParseVersion(served[i].version);
      if version.None? { continue; }
      if served[i].date.None? {
        return Ok(ServiceStatus(version.value, None));
      }
      if deprecated.None? { deprecated := Some(served[i]); }
    }
    assert served[|served|..] == [];
    if deprecated.None? { return Err(IncompatibleProtocol); }
    var date := deprecated.value.date;
    return Ok(ServiceStatus(ParseVersion(deprecated.value.version).value,
                            if date.None? then None else Some(SanitiseDate(date.value))));
  }

  /** The choice follows the service's order: the first spoken version without a date, else the
      first spoken one, and it fails exactly when nothing is shared. What is chosen is served. */
  lemma SelectFollowsTheService(served: seq<ServedVersion>)
    ensures Select(served).Err? <==> forall i :: 0 <= i < |served| ==> !Spoken(served[i])
    ensures Select(served).Err? ==> Select(served).kind == IncompatibleProtocol
    ensures Select(served).Ok? ==>
              exists i :: 0 <= i < |served| && Spoken(served[i]) && Select(served).value == StatusOf(served[i])
                          && served[i].version == AsStr(Select(served).value.version)
                          && Select(served).value.date
                             == (if served[i].date.None? then None else Some(SanitiseDate(served[i].date.value)))
                          && (if served[i].date.None?
                              then forall j :: 0 <= j < i ==> !(Spoken(served[j]) && served[j].date.None?)
                              else (forall j :: 0 <= j < i ==> !Spoken(served[j]))
                                   && forall j :: 0 <= j < |served| && Spoken(served[j]) ==> served[j].date.Some?)
  {
    FirstSpokenIsFirst(served, true);
    FirstSpokenIsFirst(served, false);
    match FirstSpoken(served, true)
    case Some(entry) =>
      var i :| 0 <= i < |served| && served[i] == entry
               && forall j :: 0 <= j < i ==> !Candidate(served[j], true);
      ParseVersionInverts(served[i].version, Select(served).value.version);
      assert Select(served).value == StatusOf(served[i]);
    case None =>
      match FirstSpoken(served, false)
      case Some(entry) =>
        var i :| 0 <= i < |served| && served[i] == entry
                 && forall j :: 0 <= j < i ==> !Candidate(served[j], false);
        ParseVersionInverts(served[i].version, Select(served).value.version);
        assert Select(served).value == StatusOf(served[i]);
      case None =>
  }

  /** The entries this build speaks, in the service's order. */
  function SpokenOnly(served: seq<ServedVersion>): seq<ServedVersion> {
    if served == [] then []
    else (if Spoken(served[0]) then [served[0]] else []) + SpokenOnly(served[1..])
  }

  lemma FirstSpokenIgnoresOthers(served: seq<ServedVersion>, undated: bool)
    ensures FirstSpoken(SpokenOnly(served), undated) == FirstSpoken(served, undated)
  {
    if served != [] {
      FirstSpokenIgnoresOthers(served[1..], undated);
      if Spoken(served[0]) {
        assert SpokenOnly(served)[1..] == SpokenOnly(served[1..]);
      } else {
        assert SpokenOnly(served) == SpokenOnly(served[1..]);
      }
    }
  }

  /** Upgrade safety: a service may add or drop versions this build does not speak, anywhere in its
      list, and every client's outcome stays what it was. */
  lemma UnspokenVersionsAreIgnored(served: seq<ServedVersion>, upgraded: seq<ServedVersion>)
    requires SpokenOnly(served) == SpokenOnly(upgraded)
    ensures Select(served) == Select(upgraded)
  {
    FirstSpokenIgnoresOthers(served, true);
    FirstSpokenIgnoresOthers(served, false);
    FirstSpokenIgnoresOthers(upgraded, true);
    FirstSpokenIgnoresOthers(upgraded, false);
  }

  lemma InsertedUnspoken(before: seq<ServedVersion>, added: seq<ServedVersion>, after: seq<ServedVersion>)
    requires forall i :: 0 <= i < |added| ==> !Spoken(added[i])
    ensures SpokenOnly(before + added + after) == SpokenOnly(before + after)
    ensures Select(before + added + after) == Select(before + after)
  {
    SpokenOnlyConcat(before + added, after);
    SpokenOnlyConcat(before, added);
    SpokenOnlyConcat(before, after);
    NoneSpoken(added);
    UnspokenVersionsAreIgnored(before + added + after, before + after);
  }

  lemma {:induction false} NoneSpoken(added: seq<ServedVersion>)
    requires forall i :: 0 <= i < |added| ==> !Spoken(added[i])
    ensures SpokenOnly(added) == []
  {
    if added != [] {
      NoneSpoken(added[1..]);
    }
  }

  lemma SpokenOnlyConcat(a: seq<ServedVersion>, b: seq<ServedVersion>)
    ensures SpokenOnly(a + b) == SpokenOnly(a) + SpokenOnly(b)
  {
    if a == [] {
      assert a + b == b;
    } else {
      assert (a + b)[1..] == a[1..] + b;
      SpokenOnlyConcat(a[1..], b);
    }
  }

  // ---------- The handshake ----------

  datatype VersionReply = VersionReply(protocolVersion: string, supported: seq<string>)

  /** `predates_the_handshake`. */
  predicate PredatesTheHandshake(kind: ErrorKind) {
    kind == Unauthenticated || kind == IncompatibleProtocol
  }

  function Undated(versions: seq<string>): (r: seq<ServedVersion>)
    ensures |r| == |versions|
    ensures forall i :: 0 <= i < |versions| ==> r[i] == ServedVersion(versions[i], None)
  {
    seq(|versions|, i requires 0 <= i < |versions| => ServedVersion(versions[i], None))
  }

  /** `legacy_served`, from the legacy route's answer. */
  function LegacyServed(reply: VersionReply): seq<ServedVersion> {
    if reply.protocolVersion == AsStr(LEGACY) then [ServedVersion(AsStr(LEGACY), None)]
    else if reply.supported == [] then [ServedVersion(reply.protocolVersion, None)]
    else Undated(reply.supported)
  }

  /** What a service does when asked. The legacy answer is consulted only when it is called for. */
  datatype Service = Service(handshake: Result<seq<ServedVersion>>, legacy: Result<VersionReply>)

  datatype Negotiation = Negotiation(outcome: Result<ServiceStatus>, handshakes: nat, legacyCalls: nat)

  /** `negotiate`, with the calls it makes counted. */
  function Negotiate(service: Service): Negotiation {
    match service.handshake
    case Ok(served) => Negotiation(Select(served), 1, 0)
    case Err(kind) =>
      if !PredatesTheHandshake(kind) then Negotiation(Err(kind), 1, 0) else
        match service.legacy
        case Err(kind) => Negotiation(Err(kind), 1, 1)
        case Ok(reply) => Negotiation(Select(LegacyServed(reply)), 1, 1)
  }

  /** The version spoken to a service that lists these, none of them dated: the first in its order
      that this build speaks. */
  lemma UndatedFollowsTheOrder(versions: seq<string>)
    ensures match Select(Undated(versions))
            case Err(kind) => kind == IncompatibleProtocol && forall i :: 0 <= i < |versions| ==> ParseVersion(versions[i]).None?
            case Ok(status) =>
              && status.date == None
              && exists i :: 0 <= i < |versions| && versions[i] == AsStr(status.version)
                             && forall j :: 0 <= j < i ==> ParseVersion(versions[j]).None?
  {
    var served := Undated(versions);
    SelectFollowsTheService(served);
    if Select(served).Ok? {
      var status := Select(served).value;
      var i :| 0 <= i < |served| && Spoken(served[i]) && status == StatusOf(served[i])
               && served[i].version == AsStr(status.version)
               && forall j :: 0 <= j < i ==> !(Spoken(served[j]) && served[j].date.None?);
      assert versions[i] == AsStr(status.version);
      forall j | 0 <= j < i ensures ParseVersion(versions[j]).None? {
        assert served[j].version == versions[j];
      }
    } else {
      forall i | 0 <= i < |versions| ensures ParseVersion(versions[i]).None? {
        assert served[i].version == versions[i];
      }
    }
  }

  /** Exactly which services are taken to predate the handshake. */
  predicate NoHandshake(service: Service) {
    service.handshake == Err(Unauthenticated) || service.handshake == Err(IncompatibleProtocol)
  }

  /** One handshake always, and one legacy call exactly when the handshake is refused unauthenticated or
      as incompatible. A service with the handshake is taken at its word; any other handshake error,
      and a legacy error, is the outcome itself. */
  lemma NegotiateOutcome(service: Service)
    ensures Negotiate(service).handshakes == 1
    ensures Negotiate(service).legacyCalls == if NoHandshake(service) then 1 else 0
    ensures service.handshake.Ok? ==> Negotiate(service).outcome == Select(service.handshake.value)
    ensures service.handshake.Err? && !NoHandshake(service) ==> Negotiate(service).outcome == Err(service.handshake.kind)
    ensures NoHandshake(service) && service.legacy.Err? ==> Negotiate(service).outcome == Err(service.legacy.kind)
  {
  }

  /** Without a handshake: `v3` when the legacy route answers for it; otherwise the first version listed,
      or the one answered for when none is listed, that this build speaks, never with a date; and
      incompatible when there is none. */
  lemma LegacyOutcome(service: Service)
    requires NoHandshake(service) && service.legacy.Ok?
    ensures var reply := service.legacy.value;
            var offered := if reply.supported == [] then [reply.protocolVersion] else reply.supported;
            if reply.protocolVersion == "v3" then Negotiate(service).outcome == Ok(ServiceStatus(V3, None))
            else match Negotiate(service).outcome
                 case Err(kind) => kind == IncompatibleProtocol && forall i :: 0 <= i < |offered| ==> ParseVersion(offered[i]).None?
                 case Ok(status) =>
                   && status.date == None
                   && exists i :: 0 <= i < |offered| && offered[i] == AsStr(status.version)
                                  && forall j :: 0 <= j < i ==> ParseVersion(offered[j]).None?
  {
    var reply := service.legacy.value;
    if reply.protocolVersion == "v3" {
      ParseVersionInverts(AsStr(LEGACY), LEGACY);
    } else {
      var offered := if reply.supported == [] then [reply.protocolVersion] else reply.supported;
      assert LegacyServed(reply) == Undated(offered);
      UndatedFollowsTheOrder(offered);
    }
  }

  /** A deployed server that authenticates before it routes is still spoken to. */
  lemma AuthenticatingServerIsSpokenTo()
    ensures Negotiate(Service(Err(Unauthenticated), Ok(VersionReply("v3", [])))).outcome == Ok(ServiceStatus(V3, None))
  {
    LegacyOutcome(Service(Err(Unauthenticated), Ok(VersionReply("v3", []))));
  }
}
