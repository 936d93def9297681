/** Any number of requests moving independently through the server's layers, outermost first: the
    version layer that counts attempts, the version-not-served catch-all, and authentication,
    which counts what it accepts. Each step is atomic and any interleaving is a run. */
module ServerPipeline {
  import opened Text
  import opened Routes
  import opened ProtocolCounters

  datatype Request = Request(verb: Method, path: string)

  datatype Stage =
    | Arrived          // not yet seen by the version layer
    | Tagged           // counted, and carrying its version extension if it has one
    | NotServed        // answered by the catch-all
    | PastCatchAll
    | NotFound         // a telemetry path, answered 404
    | Exempt           // let through to the inner service unauthenticated
    | Challenged       // authentication has begun
    | Rejected         // authentication failed
    | Accepted         // authentication succeeded, not yet counted
    | Counted          // counted as authenticated and passed to the inner service

  /** `tag` is the version extension: absent, an unserved version, or a served one's label. */
  datatype Progress = Progress(request: Request, stage: Stage, tag: Option<Option<string>>)

  datatype State = State(requests: map<nat, Progress>, counters: Counters)

  datatype Step =
    | Arrive(id: nat, request: Request)
    | VersionLayer(id: nat)
    | CatchAll(id: nat)
    | Gate(id: nat)
    | Authenticate(id: nat, accepted: bool)
    | CountAuthenticated(id: nat)

  function Initial(labels: seq<string>): State { State(map[], Fresh(labels)) }

  function Tag(request: Request, labels: seq<string>): Option<Option<string>> {
    match Attribute(request.verb, request.path, labels)
    case Served(version) => Some(Some(version))
    case UnservedVersion => Some(None)
    case Unrecognised => Some(None)
    case UnversionedCall => None
    case NotProtocolTraffic => None
  }

  function CountAttempt(c: Counters, tag: Option<Option<string>>): Counters {
    match tag
    case None => c
    case Some(None) => Attempted(c, UNRECOGNISED_LABEL)
    case Some(Some(version)) => Attempted(c, version)
  }

  function CountAccepted(c: Counters, tag: Option<Option<string>>): Counters {
    match tag case Some(Some(version)) => Authenticated(c, version) case _ => c
  }

  function Advance(s: State, id: nat, p: Progress): State { s.(requests := s.requests[id := p]) }

  /** One step, or `None` where it is not enabled. */
  function Next(s: State, step: Step, labels: seq<string>): Option<State> {
    match step
    case Arrive(id, request) =>
      if id in s.requests then None else Some(Advance(s, id, Progress(request, Arrived, None)))
    case VersionLayer(id) =>
      if id !in s.requests || s.requests[id].stage != Arrived then None else
        var tag := Tag(s.requests[id].request, labels);
        Some(State(s.requests[id := s.requests[id].(stage := Tagged, tag := tag)], CountAttempt(s.counters, tag)))
    case CatchAll(id) =>
      if id !in s.requests || s.requests[id].stage != Tagged then None else
        var p := s.requests[id];
        var refused := CatchAllRefuses(p.request.verb, p.request.path, labels);
        Some(Advance(s, id, p.(stage := if refused then NotServed else PastCatchAll)))
    case Gate(id) =>
      if id !in s.requests || s.requests[id].stage != PastCatchAll then None else
        var p := s.requests[id];
        var path := p.request.path;
        Some(Advance(s, id, p.(stage :=
          if IsClientTelemetryPath(path) then NotFound
          else if IsWebAssetRequest(p.request.verb, path, labels) || IsOperationalRpc(path, labels) then Exempt
          else Challenged)))
    case Authenticate(id, accepted) =>
      if id !in s.requests || s.requests[id].stage != Challenged then None
      else Some(Advance(s, id, s.requests[id].(stage := if accepted then Accepted else Rejected)))
    case CountAuthenticated(id) =>
      if id !in s.requests || s.requests[id].stage != Accepted then None else
        var p := s.requests[id];
        Some(State(s.requests[id := p.(stage := Counted)], CountAccepted(s.counters, p.tag)))
  }

  function Run(s: State, steps: seq<Step>, labels: seq<string>): Option<State>
    decreases steps
  {
    if steps == [] then Some(s) else
      match Next(s, steps[0], labels)
      case None => None
      case Some(s') => Run(s', steps[1..], labels)
  }

  // ---------- What every step keeps ----------

  /** Requests attributed to `name` that the version layer has seen. */
  function TaggedWith(s: State, name: string): set<nat> {
    set id | id in s.requests && s.requests[id].tag == Some(Some(name))
  }

  /** Those of them that authentication accepted and counted. */
  function AuthenticatedWith(s: State, name: string): set<nat> {
    set id | id in s.requests && s.requests[id].tag == Some(Some(name)) && s.requests[id].stage == Counted
  }

  /** Requests the version layer found in the namespace, on a version or malformed. */
  function CountedAttempts(s: State): set<nat> {
    set id | id in s.requests && s.requests[id].tag.Some?
  }

  /** Those among them on no served version. */
  function Unattributed(s: State): set<nat> {
    set id | id in s.requests && s.requests[id].tag == Some(None)
  }

  /** A `POST` naming a version, or malformed, inside the namespace. */
  predicate NamespacePost(request: Request) {
    request.verb == Post && (Classify(request.path).Some? && Classify(request.path).value != Unversioned)
  }

  ghost predicate ProgressInv(p: Progress, labels: seq<string>) {
    && p.tag == (if p.stage == Arrived then None else Tag(p.request, labels))
    && (p.stage == NotServed ==> CatchAllRefuses(p.request.verb, p.request.path, labels))
    && (p.stage !in {Arrived, Tagged, NotServed} ==> !CatchAllRefuses(p.request.verb, p.request.path, labels))
    && (p.stage in {Challenged, Rejected, Accepted, Counted} ==> !IsOperationalRpc(p.request.path, labels))
  }

  /** One version's counters are the sizes of its sets of requests. */
  predicate Tallied(s: State, version: VersionCounters, name: string) {
    version.attempted == |TaggedWith(s, name)| && version.authenticated == |AuthenticatedWith(s, name)|
  }

  ghost predicate Inv(s: State, labels: seq<string>) {
    && LabelledBy(s.counters, labels)
    && (forall id :: id in s.requests ==> ProgressInv(s.requests[id], labels))
    && (forall i :: 0 <= i < |labels| ==> Tallied(s, s.counters.versions[i], labels[i]))
    && TotalAttempted(s.counters.versions) + s.counters.unrecognised == |CountedAttempts(s)|
    && s.counters.unrecognised == |Unattributed(s)|
  }

  ghost predicate ValidLabels(labels: seq<string>) {
    Distinct(labels) && Labels(labels) && UNRECOGNISED_LABEL !in labels
  }

  lemma SlotOf(c: Counters, labels: seq<string>, i: nat)
    requires LabelledBy(c, labels) && Distinct(labels) && i < |labels|
    ensures Slot(c.versions, labels[i]) == i
  {
    var s := Slot(c.versions, labels[i]);
    assert c.versions[i].version == labels[i];
  }

  /** A step that neither tags a request nor counts it leaves every set as it was. */
  lemma QuietStep(s: State, id: nat, p: Progress, name: string)
    requires id in s.requests ==> p.tag == s.requests[id].tag && (p.stage == Counted <==> s.requests[id].stage == Counted)
    requires id !in s.requests ==> p.tag == None
    ensures TaggedWith(Advance(s, id, p), name) == TaggedWith(s, name)
    ensures AuthenticatedWith(Advance(s, id, p), name) == AuthenticatedWith(s, name)
    ensures CountedAttempts(Advance(s, id, p)) == CountedAttempts(s)
    ensures Unattributed(Advance(s, id, p)) == Unattributed(s)
  {
  }

  lemma QuietStepKeepsInv(s: State, id: nat, p: Progress, labels: seq<string>)
    requires Inv(s, labels) && ProgressInv(p, labels)
    requires id in s.requests ==> p.tag == s.requests[id].tag && (p.stage == Counted <==> s.requests[id].stage == Counted)
    requires id !in s.requests ==> p.tag == None
    ensures Inv(Advance(s, id, p), labels)
  {
    QuietStep(s, id, p, "");
    forall i | 0 <= i < |labels| ensures Tallied(Advance(s, id, p), s.counters.versions[i], labels[i]) {
      assert Tallied(s, s.counters.versions[i], labels[i]);
      QuietStep(s, id, p, labels[i]);
    }
  }

  predicate Tagging(s: State, id: nat, p: Progress) {
    id in s.requests && s.requests[id].tag == None && s.requests[id].stage != Counted && p.stage != Counted
  }

  lemma TaggedGrows(s: State, id: nat, p: Progress, name: string)
    requires Tagging(s, id, p)
    ensures |TaggedWith(Advance(s, id, p), name)| == |TaggedWith(s, name)| + (if p.tag == Some(Some(name)) then 1 else 0)
  {
    var a, b := TaggedWith(s, name), TaggedWith(Advance(s, id, p), name);
    assert id !in a;
    assert id in b <==> p.tag == Some(Some(name));
    assert b - {id} == a;
  }

  lemma AttemptsGrow(s: State, id: nat, p: Progress)
    requires Tagging(s, id, p)
    ensures |CountedAttempts(Advance(s, id, p))| == |CountedAttempts(s)| + (if p.tag.Some? then 1 else 0)
  {
    var a, b := CountedAttempts(s), CountedAttempts(Advance(s, id, p));
    assert id !in a;
    assert id in b <==> p.tag.Some?;
    assert b - {id} == a;
  }

  lemma UnattributedGrow(s: State, id: nat, p: Progress)
    requires Tagging(s, id, p)
    ensures |Unattributed(Advance(s, id, p))| == |Unattributed(s)| + (if p.tag == Some(None) then 1 else 0)
  {
    var a, b := Unattributed(s), Unattributed(Advance(s, id, p));
    assert id !in a;
    assert id in b <==> p.tag == Some(None);
    assert b - {id} == a;
  }

  lemma TaggingSizes(s: State, id: nat, p: Progress, name: string)
    requires Tagging(s, id, p)
    ensures |TaggedWith(Advance(s, id, p), name)| == |TaggedWith(s, name)| + (if p.tag == Some(Some(name)) then 1 else 0)
    ensures |AuthenticatedWith(Advance(s, id, p), name)| == |AuthenticatedWith(s, name)|
    ensures |CountedAttempts(Advance(s, id, p))| == |CountedAttempts(s)| + (if p.tag.Some? then 1 else 0)
    ensures |Unattributed(Advance(s, id, p))| == |Unattributed(s)| + (if p.tag == Some(None) then 1 else 0)
  {
    UnattributedGrow(s, id, p);
    TaggedGrows(s, id, p, name);
    AttemptsGrow(s, id, p);
    assert AuthenticatedWith(Advance(s, id, p), name) == AuthenticatedWith(s, name);
  }

  lemma TaggedTally(s: State, id: nat, p: Progress, labels: seq<string>, i: nat)
    requires LabelledBy(s.counters, labels) && ValidLabels(labels) && i < |labels| && Tagging(s, id, p)
    requires Tallied(s, s.counters.versions[i], labels[i])
    ensures var counters := CountAttempt(s.counters, p.tag);
            LabelledBy(counters, labels) && Tallied(Advance(s, id, p), counters.versions[i], labels[i])
  {
    CountAttemptEffect(s.counters, p.tag, labels);
    TaggingSizes(s, id, p, labels[i]);
  }

  lemma VersionLayerKeepsInv(s: State, id: nat, labels: seq<string>)
    requires Inv(s, labels) && ValidLabels(labels) && Next(s, VersionLayer(id), labels).Some?
    ensures Inv(Next(s, VersionLayer(id), labels).value, labels)
  {
    var tag := Tag(s.requests[id].request, labels);
    var p := s.requests[id].(stage := Tagged, tag := tag);
    var counters := CountAttempt(s.counters, tag);
    assert ProgressInv(s.requests[id], labels) && ProgressInv(p, labels);
    CountAttemptEffect(s.counters, tag, labels);
    UnrecognisedEffect(s.counters, s.requests[id].request, labels);
    TaggingSizes(s, id, p, "");
    forall i | 0 <= i < |labels| ensures Tallied(Advance(s, id, p), counters.versions[i], labels[i]) {
      TaggedTally(s, id, p, labels, i);
    }
    RecountKeepsInv(Advance(s, id, p), counters, labels);
  }

  /** The sets depend on the requests alone. */
  lemma RecountKeepsInv(s: State, counters: Counters, labels: seq<string>)
    requires LabelledBy(counters, labels)
    requires forall id :: id in s.requests ==> ProgressInv(s.requests[id], labels)
    requires forall i :: 0 <= i < |labels| ==> Tallied(s, counters.versions[i], labels[i])
    requires TotalAttempted(counters.versions) + counters.unrecognised == |CountedAttempts(s)|
    requires counters.unrecognised == |Unattributed(s)|
    ensures Inv(State(s.requests, counters), labels)
  {
    var s' := State(s.requests, counters);
    assert CountedAttempts(s') == CountedAttempts(s) && Unattributed(s') == Unattributed(s);
    forall i | 0 <= i < |labels| ensures Tallied(s', counters.versions[i], labels[i]) {
      assert Tallied(s, counters.versions[i], labels[i]);
      assert TaggedWith(s', labels[i]) == TaggedWith(s, labels[i]);
      assert AuthenticatedWith(s', labels[i]) == AuthenticatedWith(s, labels[i]);
    }
  }

  lemma UnrecognisedEffect(c: Counters, request: Request, labels: seq<string>)
    requires LabelledBy(c, labels) && ValidLabels(labels)
    ensures var tag := Tag(request, labels);
            CountAttempt(c, tag).unrecognised == c.unrecognised + if tag == Some(None) then 1 else 0
  {
    match Tag(request, labels)
    case Some(Some(version)) =>
      var i :| 0 <= i < |labels| && labels[i] == version;
      SlotOf(c, labels, i);
    case Some(None) => assert forall i :: 0 <= i < |labels| ==> labels[i] != UNRECOGNISED_LABEL;
    case None =>
  }

  lemma CountAttemptEffect(c: Counters, tag: Option<Option<string>>, labels: seq<string>)
    requires LabelledBy(c, labels) && ValidLabels(labels)
    ensures var c' := CountAttempt(c, tag);
            && LabelledBy(c', labels)
            && (forall i :: 0 <= i < |labels| ==>
                  && c'.versions[i].attempted == c.versions[i].attempted + (if tag == Some(Some(labels[i])) then 1 else 0)
                  && c'.versions[i].authenticated == c.versions[i].authenticated)
            && TotalAttempted(c'.versions) + c'.unrecognised
               == TotalAttempted(c.versions) + c.unrecognised + (if tag.Some? then 1 else 0)
  {
    match tag
    case None =>
    case Some(None) =>
      AttemptedAddsOne(c, UNRECOGNISED_LABEL);
      assert forall i :: 0 <= i < |labels| ==> labels[i] != UNRECOGNISED_LABEL;
    case Some(Some(version)) =>
      AttemptedAddsOne(c, version);
      forall i | 0 <= i < |labels| ensures labels[i] == version <==> Slot(c.versions, version) == i {
        SlotOf(c, labels, i);
      }
  }

  lemma AcceptingSizes(s: State, id: nat, name: string)
    requires id in s.requests && s.requests[id].stage == Accepted
    ensures var p := s.requests[id].(stage := Counted);
            && |TaggedWith(Advance(s, id, p), name)| == |TaggedWith(s, name)|
            && |AuthenticatedWith(Advance(s, id, p), name)|
               == |AuthenticatedWith(s, name)| + (if p.tag == Some(Some(name)) then 1 else 0)
            && |CountedAttempts(Advance(s, id, p))| == |CountedAttempts(s)|
            && |Unattributed(Advance(s, id, p))| == |Unattributed(s)|
  {
    var p := s.requests[id].(stage := Counted);
    var s' := Advance(s, id, p);
    assert TaggedWith(s', name) == TaggedWith(s, name);
    if p.tag == Some(Some(name)) {
      assert AuthenticatedWith(s', name) == AuthenticatedWith(s, name) + {id};
    } else {
      assert AuthenticatedWith(s', name) == AuthenticatedWith(s, name);
    }
    assert CountedAttempts(s') == CountedAttempts(s) && Unattributed(s') == Unattributed(s);
  }

  lemma CountAcceptedEffect(c: Counters, tag: Option<Option<string>>, labels: seq<string>)
    requires LabelledBy(c, labels) && Distinct(labels)
    ensures var c' := CountAccepted(c, tag);
            && LabelledBy(c', labels) && c'.unrecognised == c.unrecognised
            && (forall i :: 0 <= i < |labels| ==>
                  && c'.versions[i].attempted == c.versions[i].attempted
                  && c'.versions[i].authenticated == c.versions[i].authenticated + (if tag == Some(Some(labels[i])) then 1 else 0))
            && TotalAttempted(c'.versions) == TotalAttempted(c.versions)
  {
    match tag
    case Some(Some(version)) =>
      AuthenticatedAddsNoAttempt(c, version);
      forall i | 0 <= i < |labels| ensures labels[i] == version <==> Slot(c.versions, version) == i {
        SlotOf(c, labels, i);
      }
    case _ =>
  }

  lemma CountedProgress(p: Progress, labels: seq<string>)
    requires ProgressInv(p, labels) && p.stage == Accepted
    ensures ProgressInv(p.(stage := Counted), labels)
  {
  }

  lemma AcceptedTally(s: State, id: nat, labels: seq<string>, i: nat)
    requires LabelledBy(s.counters, labels) && Distinct(labels) && i < |labels|
    requires id in s.requests && s.requests[id].stage == Accepted && Tallied(s, s.counters.versions[i], labels[i])
    ensures var p := s.requests[id].(stage := Counted);
            var counters := CountAccepted(s.counters, p.tag);
            LabelledBy(counters, labels) && Tallied(Advance(s, id, p), counters.versions[i], labels[i])
  {
    CountAcceptedEffect(s.counters, s.requests[id].tag, labels);
    AcceptingSizes(s, id, labels[i]);
  }

  lemma CountAuthenticatedKeepsInv(s: State, id: nat, labels: seq<string>)
    requires Inv(s, labels) && ValidLabels(labels) && id in s.requests && s.requests[id].stage == Accepted
    ensures Inv(State(Advance(s, id, s.requests[id].(stage := Counted)).requests, CountAccepted(s.counters, s.requests[id].tag)), labels)
  {
    var p := s.requests[id].(stage := Counted);
    var counters := CountAccepted(s.counters, p.tag);
    CountedProgress(s.requests[id], labels);
    CountAcceptedEffect(s.counters, p.tag, labels);
    AcceptingSizes(s, id, "");
    forall i | 0 <= i < |labels| ensures Tallied(Advance(s, id, p), counters.versions[i], labels[i]) {
      AcceptedTally(s, id, labels, i);
    }
    RecountKeepsInv(Advance(s, id, p), counters, labels);
  }

  lemma NextKeepsInv(s: State, step: Step, labels: seq<string>)
    requires Inv(s, labels) && ValidLabels(labels) && Next(s, step, labels).Some?
    ensures Inv(Next(s, step, labels).value, labels)
  {
    match step
    case Arrive(id, request) => QuietStepKeepsInv(s, id, Progress(request, Arrived, None), labels);
    case VersionLayer(id) => VersionLayerKeepsInv(s, id, labels);
    case CountAuthenticated(id) => CountAuthenticatedKeepsInv(s, id, labels);
    case _ =>
      var id := step.id;
      var p := Next(s, step, labels).value.requests[id];
      assert Next(s, step, labels).value == Advance(s, id, p);
      QuietStepKeepsInv(s, id, p, labels);
  }

  lemma InitialInv(labels: seq<string>)
    ensures Inv(Initial(labels), labels)
  {
    var s := Initial(labels);
    forall name ensures TaggedWith(s, name) == {} && AuthenticatedWith(s, name) == {} {
    }
    assert CountedAttempts(s) == {} && Unattributed(s) == {};
    FreshTotal(s.counters.versions);
  }

  lemma FreshTotal(versions: seq<VersionCounters>)
    requires forall i :: 0 <= i < |versions| ==> versions[i].attempted == 0
    ensures TotalAttempted(versions) == 0
  {
  }

  lemma {:induction false} RunKeepsInv(s: State, steps: seq<Step>, labels: seq<string>)
    requires Inv(s, labels) && ValidLabels(labels) && Run(s, steps, labels).Some?
    ensures Inv(Run(s, steps, labels).value, labels)
    decreases steps
  {
    if steps != [] {
      NextKeepsInv(s, steps[0], labels);
      RunKeepsInv(Next(s, steps[0], labels).value, steps[1..], labels);
    }
  }

  // ---------- Counter conservation over every interleaving ----------

  /** In every reachable state: no version has more authenticated than attempted requests; the
      attempts recorded are exactly the namespace `POST`s the version layer has seen, none lost and
      none counted twice; the catch-all has refused exactly calls on unserved versions, none of
      which went further; and whatever needs no token was never refused. */
  lemma CountersConserved(steps: seq<Step>, labels: seq<string>)
    requires ValidLabels(labels) && Run(Initial(labels), steps, labels).Some?
    ensures var s := Run(Initial(labels), steps, labels).value;
            && LabelledBy(s.counters, labels)
            && (forall i :: 0 <= i < |labels| ==>
                  s.counters.versions[i].authenticated <= s.counters.versions[i].attempted)
            && TotalAttempted(s.counters.versions) + s.counters.unrecognised
               == |set id | id in s.requests && s.requests[id].stage != Arrived && NamespacePost(s.requests[id].request)|
            && (forall id :: id in s.requests ==>
                  var p := s.requests[id];
                  var unserved := Attribute(p.request.verb, p.request.path, labels) == UnservedVersion;
                  && (p.stage == NotServed ==> unserved)
                  && (unserved ==> p.stage in {Arrived, Tagged, NotServed})
                  && (IsOperationalRpc(p.request.path, labels) ==> p.stage !in {NotServed, Challenged, Rejected, Accepted, Counted}))
  {
    InitialInv(labels);
    RunKeepsInv(Initial(labels), steps, labels);
    var s := Run(Initial(labels), steps, labels).value;
    forall i | 0 <= i < |labels| ensures s.counters.versions[i].authenticated <= s.counters.versions[i].attempted {
      SubsetSize(AuthenticatedWith(s, labels[i]), TaggedWith(s, labels[i]));
    }
    forall id | id in s.requests
      ensures s.requests[id].tag.Some? <==> s.requests[id].stage != Arrived && NamespacePost(s.requests[id].request)
      ensures var p := s.requests[id];
              var unserved := Attribute(p.request.verb, p.request.path, labels) == UnservedVersion;
              && (p.stage == NotServed ==> unserved)
              && (unserved ==> p.stage in {Arrived, Tagged, NotServed})
              && (IsOperationalRpc(p.request.path, labels) ==> p.stage !in {NotServed, Challenged, Rejected, Accepted, Counted})
    {
      var p := s.requests[id];
      assert ProgressInv(p, labels);
      CatchAllIsUnservedVersion(p.request.verb, p.request.path, labels);
      if IsOperationalRpc(p.request.path, labels) {
        ExemptRoutesAreNeverRefused(p.request.verb, p.request.path, labels);
      }
    }
    assert CountedAttempts(s) == set id | id in s.requests && s.requests[id].stage != Arrived && NamespacePost(s.requests[id].request);
  }

  lemma SubsetSize(a: set<nat>, b: set<nat>)
    requires a <= b
    ensures |a| <= |b|
  {
    if a != {} {
      var x :| x in a;
      SubsetSize(a - {x}, b - {x});
    }
  }
}
