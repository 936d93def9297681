/** What a request path names: `protocol.rs` classification, the catch-all, and the routes the
    authentication layer lets through unauthenticated. */
module Routes {
  import opened Text

  const NAMESPACE := "/sovereign.config."
  const GET_VERSION := "." + "System" + "/" + "GetVersion"
  const HANDSHAKE_RPC := NAMESPACE + ("Handshake" + "/" + "Negotiate")
  const HEALTH_CHECK := "/grpc.health.v1.Health/Check"
  const HEALTH_WATCH := "/grpc.health.v1.Health/Watch"

  datatype Method = Post | Get | Head | OtherMethod

  datatype Route = Unversioned | Versioned(version: string) | Malformed

  /** `classify`; `None` is a path outside the namespace. */
  function Classify(path: string): Option<Route> {
    match StripPrefix(path, NAMESPACE)
    case None => None
    case Some(rest) =>
      var slash := Find(rest, '/');
      if slash == |rest| then Some(Malformed) else
        var service, rpc := rest[..slash], rest[slash + 1..];
        if service == [] || rpc == [] || '/' in rpc then Some(Malformed) else
          var dot := Find(service, '.');
          if dot == |service| then Some(Unversioned)
          else if dot > 0 && dot + 1 < |service| then Some(Versioned(service[..dot]))
          else Some(Malformed)
  }

  predicate Token(s: string) { s != [] && '/' !in s }

  /** A call on `version`: `/sovereign.config.<version>.<service>/<rpc>`. */
  function VersionedPath(version: string, service: string, rpc: string): string {
    NAMESPACE + (version + "." + service + "/" + rpc)
  }

  ghost predicate CallOn(path: string, version: string) {
    Token(version) && '.' !in version
    && exists service, rpc :: Token(service) && Token(rpc) && path == VersionedPath(version, service, rpc)
  }

  lemma ClassifyVersionedPath(version: string, service: string, rpc: string)
    requires Token(version) && '.' !in version && Token(service) && Token(rpc)
    ensures Classify(VersionedPath(version, service, rpc)) == Some(Versioned(version))
  {
    var path := VersionedPath(version, service, rpc);
    var rest := version + "." + service + "/" + rpc;
    assert path[|NAMESPACE|..] == rest && NAMESPACE <= path;
    var qualified := version + "." + service;
    assert rest == qualified + "/" + rpc;
    assert rest[..|qualified|] == qualified && rest[|qualified| + 1..] == rpc;
    assert '/' !in qualified;
    FindIs(rest, '/', |qualified|);
    assert qualified[..|version|] == version;
    FindIs(qualified, '.', |version|);
  }

  lemma ClassifiedIsCall(path: string, version: string)
    requires Classify(path) == Some(Versioned(version))
    ensures CallOn(path, version)
  {
    var rest := StripPrefix(path, NAMESPACE).value;
    var slash := Find(rest, '/');
    var qualified, rpc := rest[..slash], rest[slash + 1..];
    var dot := Find(qualified, '.');
    var service := qualified[dot + 1..];
    assert qualified == version + "." + service;
    assert rest == qualified + "/" + rpc;
    assert forall i :: 0 <= i < |qualified| ==> qualified[i] != '/';
    assert Token(version) && Token(service) && Token(rpc);
    assert path == VersionedPath(version, service, rpc);
  }

  /** A path classifies as a call on `version` exactly when it is one. */
  lemma ClassifyExactly(path: string, version: string)
    ensures Classify(path) == Some(Versioned(version)) <==> CallOn(path, version)
  {
    if CallOn(path, version) {
      var service, rpc :| Token(service) && Token(rpc) && path == VersionedPath(version, service, rpc);
      ClassifyVersionedPath(version, service, rpc);
    }
    if Classify(path) == Some(Versioned(version)) {
      ClassifiedIsCall(path, version);
    }
  }

  /** A call on the unversioned package: `/sovereign.config.<service>/<rpc>`. */
  ghost predicate UnversionedCallOn(path: string) {
    exists service, rpc :: Token(service) && '.' !in service && Token(rpc) && path == NAMESPACE + (service + "/" + rpc)
  }

  lemma ClassifyUnversionedPath(service: string, rpc: string)
    requires Token(service) && '.' !in service && Token(rpc)
    ensures Classify(NAMESPACE + (service + "/" + rpc)) == Some(Unversioned)
  {
    var rest := service + "/" + rpc;
    var path := NAMESPACE + rest;
    assert path[|NAMESPACE|..] == rest && NAMESPACE <= path;
    assert rest[..|service|] == service && rest[|service| + 1..] == rpc;
    FindIs(rest, '/', |service|);
    assert service[..|service|] == service;
    FindIs(service, '.', |service|);
  }

  lemma UnversionedIsCall(path: string)
    requires Classify(path) == Some(Unversioned)
    ensures UnversionedCallOn(path)
  {
    var rest := StripPrefix(path, NAMESPACE).value;
    var slash := Find(rest, '/');
    var service, rpc := rest[..slash], rest[slash + 1..];
    assert service[..|service|] == service;
    assert rest == service + "/" + rpc;
    assert Token(service) && '.' !in service && Token(rpc);
  }

  /** Every path is outside the namespace, a call on one version, an unversioned call, or malformed. */
  lemma ClassifyEveryPath(path: string)
    ensures NAMESPACE == "/sovereign.config."
    ensures Classify(path).None? <==> !(NAMESPACE <= path)
    ensures Classify(path) == Some(Unversioned) <==> UnversionedCallOn(path)
    ensures Classify(path) == Some(Malformed) <==>
            NAMESPACE <= path && !UnversionedCallOn(path) && !(exists version :: CallOn(path, version))
  {
    if UnversionedCallOn(path) {
      var service, rpc :| Token(service) && '.' !in service && Token(rpc) && path == NAMESPACE + (service + "/" + rpc);
      ClassifyUnversionedPath(service, rpc);
    }
    match Classify(path)
    case Some(Unversioned) => UnversionedIsCall(path);
    case Some(Versioned(version)) => ClassifiedIsCall(path, version);
    case _ =>
    if version :| CallOn(path, version) { ClassifyExactly(path, version); }
  }

  // ---------- Attribution and the catch-all ----------

  datatype Attribution =
    | Served(version: string) | UnservedVersion | UnversionedCall | Unrecognised | NotProtocolTraffic

  /** `attribute`. */
  function Attribute(verb: Method, path: string, recognised: seq<string>): Attribution {
    if verb != Post then NotProtocolTraffic else
      match Classify(path)
      case None => NotProtocolTraffic
      case Some(Unversioned) => UnversionedCall
      case Some(Malformed) => Unrecognised
      case Some(Versioned(version)) => if version in recognised then Served(version) else UnservedVersion
  }

  /** `UnservedVersionService::call`: whether it answers version-not-served itself. */
  predicate CatchAllRefuses(verb: Method, path: string, recognised: seq<string>) {
    verb == Post
    && match Classify(path) case Some(Versioned(version)) => version !in recognised case _ => false
  }

  // ---------- Authentication exemptions ----------

  /** `is_unauthenticated_version_handshake`. */
  predicate IsVersionHandshake(path: string, served: seq<string>) {
    match StripPrefix(path, NAMESPACE)
    case None => false
    case Some(rest) => match StripSuffix(rest, GET_VERSION) case None => false case Some(version) => version in served
  }

  predicate IsOperationalRpc(path: string, served: seq<string>) {
    path == HEALTH_CHECK || path == HEALTH_WATCH || path == HANDSHAKE_RPC || IsVersionHandshake(path, served)
  }

  predicate IsClientTelemetryPath(path: string) { path == "/v1" || "/v1/" <= path }

  predicate IsWebAssetRequest(verb: Method, path: string, served: seq<string>) {
    (verb == Get || verb == Head) && !IsOperationalRpc(path, served)
  }

  /** Compiled-in version labels are single dotted-path tokens. */
  ghost predicate Labels(recognised: seq<string>) {
    forall i :: 0 <= i < |recognised| ==> Token(recognised[i]) && '.' !in recognised[i]
  }

  /** The catch-all and the metric never disagree: it refuses exactly what is attributed to an
      unserved version, that is a `POST` calling a version outside the list. */
  lemma CatchAllIsUnservedVersion(verb: Method, path: string, recognised: seq<string>)
    ensures CatchAllRefuses(verb, path, recognised) <==> Attribute(verb, path, recognised) == UnservedVersion
    ensures CatchAllRefuses(verb, path, recognised) <==>
            verb == Post && exists version :: CallOn(path, version) && version !in recognised
  {
    if CatchAllRefuses(verb, path, recognised) {
      ClassifyExactly(path, Classify(path).value.version);
    }
    if verb == Post && exists version :: CallOn(path, version) && version !in recognised {
      var version :| CallOn(path, version) && version !in recognised;
      ClassifyExactly(path, version);
    }
  }

  lemma HandshakePathIsUnversioned()
    ensures Classify(HANDSHAKE_RPC) == Some(Unversioned)
    ensures Classify(HEALTH_CHECK).None? && Classify(HEALTH_WATCH).None?
  {
    ClassifyUnversionedPath("Handshake", "Negotiate");
    assert HEALTH_CHECK[1] == 'g' && HEALTH_WATCH[1] == 'g' && NAMESPACE[1] == 's';
  }

  lemma VersionHandshakePath(path: string, served: seq<string>)
    requires Labels(served)
    ensures IsVersionHandshake(path, served) ==>
              exists version :: version in served && path == VersionedPath(version, "System", "GetVersion")
                                && Classify(path) == Some(Versioned(version))
  {
    if IsVersionHandshake(path, served) {
      var rest := StripPrefix(path, NAMESPACE).value;
      var version := StripSuffix(rest, GET_VERSION).value;
      assert rest == version + "." + "System" + "/" + "GetVersion";
      var i :| 0 <= i < |served| && served[i] == version;
      ClassifyVersionedPath(version, "System", "GetVersion");
      assert path == VersionedPath(version, "System", "GetVersion");
    }
  }

  /** What needs no token, by its text: the health probes, the handshake, and `GetVersion` on each
      version served. */
  ghost predicate OperationalRoute(path: string, served: seq<string>) {
    || path == "/grpc.health.v1.Health/Check"
    || path == "/grpc.health.v1.Health/Watch"
    || path == "/sovereign.config.Handshake/Negotiate"
    || exists i :: 0 <= i < |served| && path == "/sovereign.config." + served[i] + ".System/GetVersion"
  }

  lemma GetVersionText()
    ensures GET_VERSION == ".System/GetVersion" && NAMESPACE == "/sovereign.config."
    ensures HANDSHAKE_RPC == "/sovereign.config.Handshake/Negotiate"
  {
  }

  lemma GetVersionRoute(version: string, served: seq<string>)
    ensures IsVersionHandshake(NAMESPACE + version + GET_VERSION, served) <==> version in served
  {
    var path := NAMESPACE + version + GET_VERSION;
    assert NAMESPACE <= path && path[|NAMESPACE|..] == version + GET_VERSION;
    var rest := version + GET_VERSION;
    assert rest[|rest| - |GET_VERSION|..] == GET_VERSION && rest[..|rest| - |GET_VERSION|] == version;
  }

  lemma VersionHandshakeText(path: string, served: seq<string>)
    ensures IsVersionHandshake(path, served) <==>
            exists i :: 0 <= i < |served| && path == NAMESPACE + served[i] + GET_VERSION
  {
    if IsVersionHandshake(path, served) {
      var rest := StripPrefix(path, NAMESPACE).value;
      var version := StripSuffix(rest, GET_VERSION).value;
      var i :| 0 <= i < |served| && served[i] == version;
      assert path == NAMESPACE + served[i] + GET_VERSION;
    }
    if i :| 0 <= i < |served| && path == NAMESPACE + served[i] + GET_VERSION {
      GetVersionRoute(served[i], served);
    }
  }

  lemma OperationalIsByText(path: string, served: seq<string>)
    ensures IsOperationalRpc(path, served) <==> OperationalRoute(path, served)
  {
    GetVersionText();
    VersionHandshakeText(path, served);
  }

  /** Whatever a client needs before it has a token is never refused by the catch-all: the health
      probes, the handshake, and `GetVersion` on every served version. */
  lemma ExemptRoutesAreNeverRefused(verb: Method, path: string, recognised: seq<string>)
    requires Labels(recognised) && IsOperationalRpc(path, recognised)
    ensures !CatchAllRefuses(verb, path, recognised)
  {
    HandshakePathIsUnversioned();
    VersionHandshakePath(path, recognised);
  }

  /** A call a client makes on a version reaches the inner service exactly when it is served. */
  lemma CallsOnServedVersionsPass(version: string, service: string, rpc: string, recognised: seq<string>)
    requires Token(version) && '.' !in version && Token(service) && Token(rpc)
    ensures CatchAllRefuses(Post, VersionedPath(version, service, rpc), recognised) <==> version !in recognised
  {
    ClassifyVersionedPath(version, service, rpc);
  }
}
